/**
 * The queue logic of the in-process message bus: a named pipe links publishers and
 * subscribers; each subscriber keeps a FIFO of received messages, optionally bounded,
 * and a ring index into its latency buffer. Blocking waits are modelled by one
 * non-blocking step each.
 */
module Umt {
  import opened Wrappers
  import opened Sequences

  /** Size of each subscriber's latency ring buffer. */
  const LatencyBufferSize: nat := 1024
  /** Modulus of the 64-bit message counter. */
  const CounterModulus: nat := 0x1_0000_0000_0000_0000

  /** The exceptions a message operation raises. */
  datatype MessageError = Empty | Stopped

  /** What one pop step yields: a message, a raised error, or "would wait" (nothing to take yet
      while publishers exist). */
  datatype PopResult<T> = Popped(value: T) | Raised(error: MessageError) | Waiting

  /** `write_obj`: with a bound (`fifoSize > 0`) and a full queue the oldest message goes, then
      the new one is appended; `fifoSize == 0` never drops. */
  function FifoWrite<T>(fifoSize: nat, q: seq<T>, x: T): (r: seq<T>)
    ensures 0 < |r| <= |q| + 1 && r[|r| - 1] == x
  {
    if fifoSize > 0 && |q| >= fifoSize then q[1..] + [x] else q + [x]
  }

  /** The new message is always last; without a bound nothing is dropped; within the bound the
      queue is the `fifoSize` newest messages; over the bound it does not grow. */
  lemma FifoWriteKeepsNewest<T>(fifoSize: nat, q: seq<T>, x: T)
    ensures var r := FifoWrite(fifoSize, q, x);
      && r != [] && r[|r| - 1] == x
      && |q| <= |r| && r[..|r| - 1] == q[|q| + 1 - |r|..]
      && (fifoSize == 0 ==> r == q + [x])
      && (fifoSize > 0 && |q| <= fifoSize ==> r == Newest(q + [x], fifoSize))
      && (fifoSize > 0 && |q| > fifoSize ==> |r| == |q|)
  {
  }

  /** Messages written one after another, oldest first. */
  function WriteAll<T>(fifoSize: nat, q: seq<T>, xs: seq<T>): seq<T>
    decreases |xs|
  {
    if xs == [] then q else FifoWrite(fifoSize, WriteAll(fifoSize, q, xs[..|xs| - 1]), xs[|xs| - 1])
  }

  /** An unbounded subscriber keeps every message in push order. */
  lemma {:induction false} WriteAllUnbounded<T>(q: seq<T>, xs: seq<T>)
    ensures WriteAll(0, q, xs) == q + xs
    decreases |xs|
  {
    if xs != [] {
      var init := xs[..|xs| - 1];
      WriteAllUnbounded(q, init);
      assert xs == init + [xs[|xs| - 1]];
      assert q + xs == (q + init) + [xs[|xs| - 1]];
    }
  }

  /** A bounded subscriber that starts within its bound holds exactly the `fifoSize` newest
      messages, in push order, after any run of writes. */
  lemma {:induction false} WriteAllBounded<T>(fifoSize: nat, q: seq<T>, xs: seq<T>)
    requires fifoSize > 0 && |q| <= fifoSize
    ensures WriteAll(fifoSize, q, xs) == Newest(q + xs, fifoSize)
    ensures |WriteAll(fifoSize, q, xs)| <= fifoSize
    decreases |xs|
  {
    if xs != [] {
      var init := xs[..|xs| - 1];
      var x := xs[|xs| - 1];
      WriteAllBounded(fifoSize, q, init);
      var before := WriteAll(fifoSize, q, init);
      assert xs == init + [x];
      assert q + xs == (q + init) + [x];
      FifoWriteKeepsNewest(fifoSize, before, x);
      NewestSnoc(q + init, x, fifoSize);
      NewestSnoc(before, x, fifoSize);
      NewestOfNewest(q + init, fifoSize, fifoSize - 1);
    }
  }

  /** After `set_fifo_size` shrinks the bound below the queue length, writes never make the
      queue longer: it stays at its length and only the oldest message is replaced. */
  lemma OverfullWriteKeepsLength<T>(fifoSize: nat, q: seq<T>, x: T)
    requires 0 < fifoSize < |q|
    ensures FifoWrite(fifoSize, q, x) == q[1..] + [x]
    ensures |FifoWrite(fifoSize, q, x)| == |q|
  {
  }

  /** The slot after `idx` in the latency ring. */
  function NextSlot(idx: nat): nat
  {
    (idx + 1) % LatencyBufferSize
  }

  /** The 64-bit message counter after one more message. */
  function NextCount(c: nat): nat
  {
    (c + 1) % CounterModulus
  }

  /** The ring index after `n` notifications. */
  function Advance(idx: nat, n: nat): nat
  {
    if n == 0 then idx else NextSlot(Advance(idx, n - 1))
  }

  /** One more step of the ring index is one more modulo 1024. */
  lemma ModSucc(a: nat)
    ensures (a % LatencyBufferSize + 1) % LatencyBufferSize == (a + 1) % LatencyBufferSize
  {
    var q, r := a / LatencyBufferSize, a % LatencyBufferSize;
    assert a == q * LatencyBufferSize + r;
    if r + 1 < LatencyBufferSize {
      assert a + 1 == q * LatencyBufferSize + (r + 1);
    } else {
      assert a + 1 == (q + 1) * LatencyBufferSize;
    }
  }

  /** The ring index stays in `[0, 1024)` and equals the start plus the count, modulo 1024. */
  lemma {:induction false} AdvanceIsModular(idx: nat, n: nat)
    requires idx < LatencyBufferSize
    ensures Advance(idx, n) < LatencyBufferSize
    ensures Advance(idx, n) == (idx + n) % LatencyBufferSize
  {
    if n > 0 {
      AdvanceIsModular(idx, n - 1);
      ModSucc(idx + n - 1);
    }
  }

  /** The queues of a list of subscribers, in list order. */
  ghost function Fifos<T>(ss: seq<Subscriber<T>>): (r: seq<seq<T>>)
    reads ss
    ensures |r| == |ss| && forall k :: 0 <= k < |ss| ==> r[k] == ss[k].fifo
  {
    seq(|ss|, k requires 0 <= k < |ss| reads ss => ss[k].fifo)
  }

  /** The queue bounds of a list of subscribers. */
  ghost function Sizes<T>(ss: seq<Subscriber<T>>): (r: seq<nat>)
    reads ss
    ensures |r| == |ss| && forall k :: 0 <= k < |ss| ==> r[k] == ss[k].fifoSize
  {
    seq(|ss|, k requires 0 <= k < |ss| reads ss => ss[k].fifoSize)
  }

  /** The latency ring indices of a list of subscribers. */
  ghost function Rings<T>(ss: seq<Subscriber<T>>): (r: seq<nat>)
    reads ss
    ensures |r| == |ss| && forall k :: 0 <= k < |ss| ==> r[k] == ss[k].latencyIdx
  {
    seq(|ss|, k requires 0 <= k < |ss| reads ss => ss[k].latencyIdx)
  }

  /** The message counters of a list of subscribers. */
  ghost function Counts<T>(ss: seq<Subscriber<T>>): (r: seq<nat>)
    reads ss
    ensures |r| == |ss| && forall k :: 0 <= k < |ss| ==> r[k] == ss[k].totalMessages
  {
    seq(|ss|, k requires 0 <= k < |ss| reads ss => ss[k].totalMessages)
  }

  /** Each queue after `write_obj(x)` under its own bound. */
  function WriteEach<T>(sizes: seq<nat>, fifos: seq<seq<T>>, x: T): (r: seq<seq<T>>)
    requires |sizes| == |fifos|
    ensures |r| == |fifos| && forall k :: 0 <= k < |fifos| ==> r[k] == FifoWrite(sizes[k], fifos[k], x)
  {
    seq(|fifos|, k requires 0 <= k < |fifos| => FifoWrite(sizes[k], fifos[k], x))
  }

  /** Each ring index after one notification. */
  function StepEach(idxs: seq<nat>): (r: seq<nat>)
    ensures |r| == |idxs| && forall k :: 0 <= k < |idxs| ==> r[k] == NextSlot(idxs[k])
  {
    seq(|idxs|, k requires 0 <= k < |idxs| => NextSlot(idxs[k]))
  }

  /** Each message counter after one more message. */
  function TickEach(cs: seq<nat>): (r: seq<nat>)
    ensures |r| == |cs| && forall k :: 0 <= k < |cs| ==> r[k] == NextCount(cs[k])
  {
    seq(|cs|, k requires 0 <= k < |cs| => NextCount(cs[k]))
  }

  /** Per-subscriber facts about the queues, gathered into one sequence equation. */
  lemma DeliveredAll<T>(ss: seq<Subscriber<T>>, sizes: seq<nat>, fifos: seq<seq<T>>, x: T)
    requires |sizes| == |ss| && |fifos| == |ss|
    requires forall k :: 0 <= k < |ss| ==> ss[k].fifo == FifoWrite(sizes[k], fifos[k], x)
    ensures Fifos(ss) == WriteEach(sizes, fifos, x)
  {
    var now, want := Fifos(ss), WriteEach(sizes, fifos, x);
    forall k | 0 <= k < |ss| ensures now[k] == want[k] {
      assert now[k] == ss[k].fifo;
    }
  }

  /** Per-subscriber facts about the ring indices, gathered into one sequence equation. */
  lemma NotifiedAll<T>(ss: seq<Subscriber<T>>, rings: seq<nat>)
    requires |rings| == |ss|
    requires forall k :: 0 <= k < |ss| ==> ss[k].latencyIdx == NextSlot(rings[k])
    ensures Rings(ss) == StepEach(rings)
  {
    var now, want := Rings(ss), StepEach(rings);
    forall k | 0 <= k < |ss| ensures now[k] == want[k] {
      assert now[k] == ss[k].latencyIdx;
    }
  }

  /** Per-subscriber facts about the message counters, gathered into one sequence equation. */
  lemma CountedAll<T>(ss: seq<Subscriber<T>>, counts: seq<nat>)
    requires |counts| == |ss|
    requires forall k :: 0 <= k < |ss| ==> ss[k].totalMessages == NextCount(counts[k])
    ensures Counts(ss) == TickEach(counts)
  {
    var now, want := Counts(ss), TickEach(counts);
    forall k | 0 <= k < |ss| ensures now[k] == want[k] {
      assert now[k] == ss[k].totalMessages;
    }
  }

  /** The loop of `push`: each subscriber in turn receives the message and is notified. */
  method Broadcast<T>(ss: seq<Subscriber<T>>, x: T)
    requires Distinct(ss)
    modifies ss`fifo, ss`latencyIdx, ss`totalMessages
    ensures Fifos(ss) == WriteEach(old(Sizes(ss)), old(Fifos(ss)), x)
    ensures Rings(ss) == StepEach(old(Rings(ss)))
    ensures Counts(ss) == TickEach(old(Counts(ss)))
  {
    ghost var sizes, fifos, rings, counts := Sizes(ss), Fifos(ss), Rings(ss), Counts(ss);
    var i := 0;
    while i < |ss|
      invariant 0 <= i <= |ss|
      invariant forall k :: 0 <= k < i ==>
        ss[k].fifo == FifoWrite(sizes[k], fifos[k], x) && ss[k].latencyIdx == NextSlot(rings[k]) && ss[k].totalMessages == NextCount(counts[k])
      invariant forall k :: i <= k < |ss| ==>
        ss[k].fifo == fifos[k] && ss[k].latencyIdx == rings[k] && ss[k].totalMessages == counts[k]
    {
      DistinctAt(ss, i);
      ss[i].Deliver(x);
      i := i + 1;
    }
    DeliveredAll(ss, sizes, fifos, x);
    NotifiedAll(ss, rings);
    CountedAll(ss, counts);
  }

  /** The notification loop of `Publisher::reset`. */
  method NotifyAll<T>(ss: seq<Subscriber<T>>)
    requires Distinct(ss)
    modifies ss`latencyIdx, ss`totalMessages
    ensures Rings(ss) == StepEach(old(Rings(ss)))
    ensures Counts(ss) == TickEach(old(Counts(ss)))
  {
    ghost var rings, counts := Rings(ss), Counts(ss);
    var i := 0;
    while i < |ss|
      invariant 0 <= i <= |ss|
      invariant forall k :: 0 <= k < i ==> ss[k].latencyIdx == NextSlot(rings[k]) && ss[k].totalMessages == NextCount(counts[k])
      invariant forall k :: i <= k < |ss| ==> ss[k].latencyIdx == rings[k] && ss[k].totalMessages == counts[k]
    {
      DistinctAt(ss, i);
      ss[i].Notify();
      i := i + 1;
    }
    NotifiedAll(ss, rings);
    CountedAll(ss, counts);
  }

  /** `utils::MessagePipe`: the publishers and subscribers bound to one message name. The
      lists are kept newest-bound first. */
  class Pipe<T> {
    var pubs: seq<Publisher<T>>
    var subs: seq<Subscriber<T>>

    /** Each list holds distinct members, each bound to this pipe. */
    ghost predicate Valid()
      reads this`pubs, this`subs, pubs`pipe, subs`pipe
    {
      PubsValid() && SubsValid()
    }

    ghost predicate PubsValid()
      reads this`pubs, pubs`pipe
    {
      Distinct(pubs) && forall i :: 0 <= i < |pubs| ==> pubs[i].pipe == this
    }

    ghost predicate SubsValid()
      reads this`subs, subs`pipe
    {
      Distinct(subs) && forall i :: 0 <= i < |subs| ==> subs[i].pipe == this
    }

    /** `emplace_front` of a publisher that is already bound to this pipe. */
    method AddPublisher(x: Publisher<T>)
      requires Valid() && x.pipe == this && x !in pubs
      modifies this`pubs
      ensures Valid() && pubs == [x] + old(pubs)
    {
      pubs := [x] + pubs;
    }

    /** `emplace_front` of a subscriber that is already bound to this pipe. */
    method AddSubscriber(x: Subscriber<T>)
      requires Valid() && x.pipe == this && x !in subs
      modifies this`subs
      ensures Valid() && subs == [x] + old(subs)
    {
      subs := [x] + subs;
    }

    constructor ()
      ensures Valid() && pubs == [] && subs == []
    {
      pubs, subs := [], [];
    }
  }

  class Subscriber<T> {
    var fifoSize: nat
    /** The received messages, oldest first. */
    var fifo: seq<T>
    var pipe: Pipe?<T>
    var latencyIdx: nat
    var totalMessages: nat

    /** The pipe this object is bound to, as a frame: empty when unbound. */
    function Home(): set<Pipe<T>>
      reads this
    {
      if pipe == null then {} else {pipe}
    }

    ghost predicate Valid()
      reads this
    {
      latencyIdx < LatencyBufferSize && totalMessages < CounterModulus
    }

    /** An unbound subscriber with the given bound; binding is a separate step. */
    constructor (size: nat)
      ensures Valid() && fresh(this)
      ensures fifoSize == size && fifo == [] && pipe == null
      ensures latencyIdx == 0 && totalMessages == 0
    {
      fifoSize, fifo, pipe := size, [], null;
      latencyIdx, totalMessages := 0, 0;
    }

    /** `write_obj`. */
    method WriteObj(x: T)
      modifies this`fifo
      ensures fifo == FifoWrite(fifoSize, old(fifo), x)
    {
      if fifoSize > 0 && |fifo| >= fifoSize {
        fifo := fifo[1..];
      }
      fifo := fifo + [x];
    }

    /** One iteration of `push`'s loop: `write_obj`, then `notify`. */
    method Deliver(x: T)
      modifies this`fifo, this`latencyIdx, this`totalMessages
      ensures fifo == FifoWrite(fifoSize, old(fifo), x)
      ensures latencyIdx == NextSlot(old(latencyIdx))
      ensures totalMessages == NextCount(old(totalMessages))
      ensures Valid()
    {
      WriteObj(x);
      Notify();
    }

    /** `notify`: the counting half of `update_performance_stats`. */
    method Notify()
      modifies this`latencyIdx, this`totalMessages
      ensures latencyIdx == NextSlot(old(latencyIdx))
      ensures totalMessages == NextCount(old(totalMessages))
      ensures Valid()
    {
      totalMessages := (totalMessages + 1) % CounterModulus;
      latencyIdx := (latencyIdx + 1) % LatencyBufferSize;
    }

    /** `clear`. */
    method Clear()
      modifies this`fifo
      ensures fifo == []
    {
      fifo := [];
    }

    /** `set_fifo_size`: the queue is not trimmed. */
    method SetFifoSize(size: nat)
      modifies this`fifoSize
      ensures fifoSize == size
    {
      fifoSize := size;
    }

    /** `get_fifo_size`. */
    method GetFifoSize() returns (size: nat)
      ensures size == fifoSize
    {
      size := fifoSize;
    }

    /** `pop`, as one step: unbound raises Empty; bound with no publisher raises Stopped
        (even when messages are queued); otherwise the front message is taken, or the call
        would wait on an empty queue. */
    method Pop() returns (r: PopResult<T>)
      modifies this`fifo
      ensures pipe == null ==> r == Raised(Empty) && fifo == old(fifo)
      ensures pipe != null && pipe.pubs == [] ==> r == Raised(Stopped) && fifo == old(fifo)
      ensures pipe != null && pipe.pubs != [] && old(fifo) == [] ==> r == Waiting && fifo == []
      ensures pipe != null && pipe.pubs != [] && old(fifo) != [] ==>
        && r == Popped(old(fifo)[0])
        && fifo == old(fifo)[1..]
    {
      if pipe == null {
        return Raised(Empty);
      }
      if pipe.pubs == [] {
        return Raised(Stopped);
      }
      if fifo == [] {
        return Waiting;
      }
      r := Popped(fifo[0]);
      fifo := fifo[1..];
    }

    /** `reset`: empty the queue and leave the pipe, if bound. */
    method Reset()
      requires pipe != null ==> pipe.Valid()
      modifies this`fifo, this`pipe, Home()`subs
      ensures fifo == [] && pipe == null
      ensures old(pipe) != null ==>
        && old(pipe).Valid()
        && old(pipe).subs == Without(old(pipe.subs), this)
        && old(pipe).pubs == old(pipe.pubs)
    {
      fifo := [];
      if pipe == null {
        return;
      }
      var p := pipe;
      WithoutDistinct(p.subs, this);
      p.subs := Without(p.subs, this);
      pipe := null;
    }

    /** `bind`: reset, then join the given pipe at the front of its subscriber list. Looking the
        pipe up by name is done by the caller. */
    method Bind(p: Pipe<T>)
      requires p.Valid()
      requires pipe != null ==> pipe.Valid()
      modifies this`fifo, this`pipe, Home()`subs, p`subs
      ensures p.Valid() && pipe == p && fifo == []
      ensures p.subs == [this] + Without(old(p.subs), this)
      ensures old(pipe) != null && old(pipe) != p ==>
        old(pipe).Valid() && old(pipe).subs == Without(old(pipe.subs), this)
    {
      ghost var was := p.subs;
      if pipe != p {
        assert this !in was;
        WithoutAbsent(was, this);
      }
      Reset();
      assert p.subs == Without(was, this);
      Join(p);
    }

    /** The second half of `bind`: point at the pipe and join the front of its list. */
    method Join(p: Pipe<T>)
      requires p.Valid() && pipe == null && this !in p.subs
      modifies this`pipe, p`subs
      ensures p.Valid() && pipe == p && p.subs == [this] + old(p.subs)
    {
      pipe := p;
      p.AddSubscriber(this);
    }
  }

  class Publisher<T> {
    var pipe: Pipe?<T>

    /** The pipe this object is bound to, as a frame: empty when unbound. */
    function Home(): set<Pipe<T>>
      reads this
    {
      if pipe == null then {} else {pipe}
    }

    /** The subscribers a call can reach: those of the bound pipe. */
    function Subs(): seq<Subscriber<T>>
      reads this, pipe
    {
      if pipe == null then [] else pipe.subs
    }

    constructor ()
      ensures pipe == null
    {
      pipe := null;
    }

    /** `push`: unbound raises Empty; otherwise every subscriber of the pipe receives the
        message through `write_obj` and is notified. Nothing else changes. */
    method Push(x: T) returns (r: Option<MessageError>)
      requires pipe != null ==> pipe.Valid()
      modifies Subs()`fifo, Subs()`latencyIdx, Subs()`totalMessages
      ensures pipe == null ==> r == Some(Empty)
      ensures pipe != null ==> r == None && pipe.Valid() && pipe.subs == old(pipe.subs)
      ensures Fifos(Subs()) == WriteEach(old(Sizes(Subs())), old(Fifos(Subs())), x)
      ensures Rings(Subs()) == StepEach(old(Rings(Subs())))
      ensures Counts(Subs()) == TickEach(old(Counts(Subs())))
    {
      if pipe == null {
        return Some(Empty);
      }
      Broadcast(pipe.subs, x);
      return None;
    }

    /** `reset`: leave the pipe; when the last publisher leaves, every subscriber is notified
        so that a waiting `pop` wakes up and raises Stopped. */
    method Reset()
      requires pipe != null ==> pipe.Valid()
      modifies this`pipe, Home()`pubs, Subs()`latencyIdx, Subs()`totalMessages
      ensures pipe == null
      ensures old(pipe) != null ==>
        && old(pipe).Valid()
        && old(pipe).pubs == Without(old(pipe.pubs), this)
        && old(pipe).subs == old(pipe.subs)
      ensures old(pipe) != null && old(pipe).pubs == [] ==>
        && Rings(old(pipe.subs)) == StepEach(old(Rings(pipe.subs)))
        && Counts(old(pipe.subs)) == TickEach(old(Counts(pipe.subs)))
      ensures old(pipe) != null && old(pipe).pubs != [] ==>
        && Rings(old(pipe.subs)) == old(Rings(pipe.subs))
        && Counts(old(pipe.subs)) == old(Counts(pipe.subs))
    {
      if pipe == null {
        return;
      }
      var p := pipe;
      Leave();
      if p.pubs == [] {
        NotifyAll(p.subs);
      }
    }

    /** The first half of `reset`: drop out of the pipe's publisher list and unbind. */
    method Leave()
      requires pipe != null && pipe.Valid()
      modifies this`pipe, pipe`pubs
      ensures pipe == null && old(pipe).Valid() && old(pipe).subs == old(pipe.subs)
      ensures old(pipe).pubs == Without(old(pipe.pubs), this)
    {
      var p := pipe;
      WithoutDistinct(p.pubs, this);
      p.pubs := Without(p.pubs, this);
      pipe := null;
    }

    /** `bind`: reset, then join the given pipe at the front of its publisher list. */
    method Bind(p: Pipe<T>)
      requires p.Valid()
      requires pipe != null ==> pipe.Valid()
      modifies this`pipe, Home()`pubs, p`pubs, Subs()`latencyIdx, Subs()`totalMessages
      ensures p.Valid() && pipe == p
      ensures p.pubs == [this] + Without(old(p.pubs), this)
      ensures p.subs == old(p.subs)
      ensures old(pipe) != null && old(pipe) != p ==>
        old(pipe).Valid() && old(pipe).pubs == Without(old(pipe.pubs), this)
      ensures old(pipe) != null ==> old(pipe).subs == old(pipe.subs)
      ensures old(pipe) != null && Without(old(pipe.pubs), this) == [] ==>
        && Rings(old(pipe.subs)) == StepEach(old(Rings(pipe.subs)))
        && Counts(old(pipe.subs)) == TickEach(old(Counts(pipe.subs)))
      ensures old(pipe) != null && Without(old(pipe.pubs), this) != [] ==>
        && Rings(old(pipe.subs)) == old(Rings(pipe.subs))
        && Counts(old(pipe.subs)) == old(Counts(pipe.subs))
    {
      if pipe == p {
        Rejoin();
      } else {
        assert this !in p.pubs;
        WithoutAbsent(p.pubs, this);
        MoveTo(p);
      }
    }

    /** `bind` to the pipe this publisher is already bound to. */
    method Rejoin()
      requires pipe != null && pipe.Valid()
      modifies this`pipe, pipe`pubs, Subs()`latencyIdx, Subs()`totalMessages
      ensures pipe == old(pipe) && pipe.Valid()
      ensures pipe.pubs == [this] + Without(old(pipe.pubs), this)
      ensures pipe.subs == old(pipe.subs)
      ensures Without(old(pipe.pubs), this) == [] ==>
        && Rings(old(pipe.subs)) == StepEach(old(Rings(pipe.subs)))
        && Counts(old(pipe.subs)) == TickEach(old(Counts(pipe.subs)))
      ensures Without(old(pipe.pubs), this) != [] ==>
        && Rings(old(pipe.subs)) == old(Rings(pipe.subs))
        && Counts(old(pipe.subs)) == old(Counts(pipe.subs))
    {
      var p := pipe;
      ghost var subs := p.subs;
      Reset();
      ghost var rings, counts := Rings(subs), Counts(subs);
      WithoutAbsent(p.pubs, this);
      Join(p);
      assert Rings(subs) == rings && Counts(subs) == counts;
    }

    /** `bind` to a pipe other than the one this publisher is bound to, if any. */
    method MoveTo(p: Pipe<T>)
      requires p.Valid() && pipe != p
      requires pipe != null ==> pipe.Valid()
      modifies this`pipe, Home()`pubs, p`pubs, Subs()`latencyIdx, Subs()`totalMessages
      ensures p.Valid() && pipe == p
      ensures p.pubs == [this] + old(p.pubs)
      ensures p.subs == old(p.subs)
      ensures old(pipe) != null ==>
        old(pipe).Valid() && old(pipe).pubs == Without(old(pipe.pubs), this) && old(pipe).subs == old(pipe.subs)
      ensures old(pipe) != null && Without(old(pipe.pubs), this) == [] ==>
        && Rings(old(pipe.subs)) == StepEach(old(Rings(pipe.subs)))
        && Counts(old(pipe.subs)) == TickEach(old(Counts(pipe.subs)))
      ensures old(pipe) != null && Without(old(pipe.pubs), this) != [] ==>
        && Rings(old(pipe.subs)) == old(Rings(pipe.subs))
        && Counts(old(pipe.subs)) == old(Counts(pipe.subs))
    {
      ghost var subs := Subs();
      Reset();
      ghost var rings, counts := Rings(subs), Counts(subs);
      Join(p);
      assert Rings(subs) == rings && Counts(subs) == counts;
    }

    /** The second half of `bind`: point at the pipe and join the front of its list. */
    method Join(p: Pipe<T>)
      requires p.Valid() && pipe == null && this !in p.pubs
      modifies this`pipe, p`pubs
      ensures p.Valid() && pipe == p && p.pubs == [this] + old(p.pubs)
    {
      pipe := p;
      p.AddPublisher(this);
    }
  }
}
