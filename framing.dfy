/**
 * The resynchronisation rule of `TransceiverManager::recv_packet`, as a function of the
 * carry-over bytes and of what one transport read delivers. The imperative method in
 * module Transceiver is proved to compute exactly this.
 */
module Framing {
  import opened Wrappers
  import opened Packet
  import opened Transport

  /** The `capacity`-byte window starting at `i` has a valid head and tail. */
  predicate WindowFramed(buf: seq<byte>, capacity: nat, i: nat)
    requires i + capacity <= |buf|
  {
    Framed(buf[i..i + capacity])
  }

  /** The earliest index at or after `from` whose window is framed, if any. */
  function ScanFrom(buf: seq<byte>, capacity: nat, from: nat): (r: Option<nat>)
    requires capacity >= 1
    decreases |buf| - from
    ensures r.Some? ==> from <= r.value && r.value + capacity <= |buf| && WindowFramed(buf, capacity, r.value)
    ensures forall j :: from <= j && j + capacity <= |buf| && (r.None? || j < r.value) ==> !WindowFramed(buf, capacity, j)
  {
    if from + capacity > |buf| then None
    else if WindowFramed(buf, capacity, from) then Some(from)
    else ScanFrom(buf, capacity, from + 1)
  }

  /** The scan is determined by its contract: it finds `i` exactly when `i` is the first framed window. */
  lemma {:induction false} ScanFromFinds(buf: seq<byte>, capacity: nat, from: nat, i: nat)
    requires capacity >= 1 && from <= i && i + capacity <= |buf| && WindowFramed(buf, capacity, i)
    requires forall j :: from <= j < i ==> !WindowFramed(buf, capacity, j)
    ensures ScanFrom(buf, capacity, from) == Some(i)
    decreases i - from
  {
    if from < i {
      ScanFromFinds(buf, capacity, from + 1, i);
    }
  }

  /** The bytes of the carry-over buffer after appending `data`: when the result would exceed
      `2 * capacity` bytes, the old contents are dropped first. */
  function Appended(carry: seq<byte>, data: seq<byte>, capacity: nat): (r: seq<byte>)
    ensures |data| <= capacity ==> |r| <= |data| + (if |carry| + |data| > 2 * capacity then 0 else |carry|)
  {
    (if |carry| + |data| > 2 * capacity then [] else carry) + data
  }

  /** The outcome of one `recv_packet` call: success, the framed packet, the new carry-over
      bytes, and whether the transport was reconnected (`close` then `open`). */
  datatype RecvResult = RecvResult(ok: bool, frame: seq<byte>, carry: seq<byte>, reconnect: bool)

  /** One `recv_packet` call on a carry-over buffer holding `carry`, when the read delivers `input`. */
  function Recv(capacity: nat, carry: seq<byte>, input: Incoming): (r: RecvResult)
    requires capacity >= 3 && Delivers(input, capacity)
    ensures r.ok ==> |r.frame| == capacity && Framed(r.frame)
    ensures |carry| <= 2 * capacity ==> |r.carry| <= 2 * capacity
    ensures r.reconnect <==> ReadCount(input) <= 0
    ensures r.reconnect ==> !r.ok && r.carry == carry
  {
    if ReadCount(input) <= 0 then RecvResult(false, [], carry, true)
    else
      var data := input.data;
      if |data| == capacity && Framed(data) then RecvResult(true, data, carry, false)
      else
        var buf := Appended(carry, data, capacity);
        match ScanFrom(buf, capacity, 0)
        case None => RecvResult(false, [], buf, false)
        case Some(i) => RecvResult(true, buf[i..i + capacity], buf[i + capacity..], false)
  }

  /** A failed read (zero or negative count) reconnects, frames nothing and keeps the carry-over bytes. */
  lemma RecvFailedRead(capacity: nat, carry: seq<byte>, input: Incoming)
    requires capacity >= 3 && Delivers(input, capacity) && ReadCount(input) <= 0
    ensures Recv(capacity, carry, input) == RecvResult(false, [], carry, true)
  {
  }

  /** Fast path: a read of exactly one well-formed frame is returned as it is and the
      carry-over bytes are not touched. */
  lemma RecvFastPath(capacity: nat, carry: seq<byte>, data: seq<byte>)
    requires capacity >= 3 && |data| == capacity && Framed(data)
    ensures Recv(capacity, carry, Bytes(data)) == RecvResult(true, data, carry, false)
  {
  }

  /** Slow path: the bytes are appended (after a reset on overflow); the earliest framed window
      of the result is extracted and what follows it becomes the new carry-over; without a
      framed window the call fails and keeps the appended bytes. */
  lemma RecvSlowPath(capacity: nat, carry: seq<byte>, data: seq<byte>)
    requires capacity >= 3 && 0 < |data| <= capacity && !(|data| == capacity && Framed(data))
    ensures var buf := Appended(carry, data, capacity);
      var r := Recv(capacity, carry, Bytes(data));
      && !r.reconnect
      && (r.ok <==> exists i: nat :: i + capacity <= |buf| && WindowFramed(buf, capacity, i))
      && (!r.ok ==> r.carry == buf)
      && (r.ok ==> exists i: nat :: i + capacity <= |buf| && WindowFramed(buf, capacity, i)
                     && (forall j :: 0 <= j < i ==> !WindowFramed(buf, capacity, j))
                     && r.frame == buf[i..i + capacity] && r.carry == buf[i + capacity..]
                     && |r.carry| == |buf| - i - capacity)
  {
    var buf := Appended(carry, data, capacity);
    match ScanFrom(buf, capacity, 0)
    case None =>
    case Some(i) =>
      assert WindowFramed(buf, capacity, i);
  }

  /** The slow path in terms of the scan of the appended bytes: a miss keeps them all, a hit
      at `i` cuts out the window together with what precedes it. */
  lemma RecvSlowCases(capacity: nat, carry: seq<byte>, data: seq<byte>)
    requires capacity >= 3 && 0 < |data| <= capacity && !(|data| == capacity && Framed(data))
    ensures var buf := Appended(carry, data, capacity);
      var found := ScanFrom(buf, capacity, 0);
      Recv(capacity, carry, Bytes(data)) ==
        if found.None? then RecvResult(false, [], buf, false)
        else RecvResult(true, buf[found.value..found.value + capacity], buf[found.value + capacity..], false)
  {
  }

  /** Overflow: when the appended bytes would not fit in `2 * capacity`, all old carry-over
      bytes are discarded and only the new read remains (or less, once a frame is cut out). */
  lemma RecvOverflowDiscardsCarry(capacity: nat, carry: seq<byte>, data: seq<byte>)
    requires capacity >= 3 && 0 < |data| <= capacity && !(|data| == capacity && Framed(data))
    requires |carry| + |data| > 2 * capacity
    ensures Appended(carry, data, capacity) == data
    ensures |Recv(capacity, carry, Bytes(data)).carry| <= capacity
  {
  }

  /** A window that lies in a prefix is the same window in any extension of it. */
  lemma WindowInPrefix(a: seq<byte>, b: seq<byte>, capacity: nat, j: nat)
    requires j + capacity <= |a|
    ensures WindowFramed(a + b, capacity, j) == WindowFramed(a, capacity, j)
  {
    assert (a + b)[j..j + capacity] == a[j..j + capacity];
  }

  /** Split-frame resync: a frame delivered in two reads of `k` and `capacity - k` bytes is
      framed by the second call, provided no spurious window of the carry-over bytes and the
      frame starts before the frame itself and at most one frame's worth of bytes is carried
      over (SplitFrameLostAfterLongCarry shows why); the carry-over bytes before the frame are
      consumed. */
  lemma SplitFrameResync(capacity: nat, carry: seq<byte>, frame: seq<byte>, k: nat)
    requires capacity >= 3 && |frame| == capacity && Framed(frame) && 1 <= k < capacity
    requires |carry| <= capacity
    requires forall j :: 0 <= j < |carry| ==> !WindowFramed(carry + frame, capacity, j)
    ensures Recv(capacity, carry, Bytes(frame[..k])) == RecvResult(false, [], carry + frame[..k], false)
    ensures Recv(capacity, carry + frame[..k], Bytes(frame[k..])) == RecvResult(true, frame, [], false)
  {
    var first := carry + frame[..k];
    var whole := carry + frame;
    assert Appended(carry, frame[..k], capacity) == first;
    assert whole == first + frame[k..];
    forall j | 0 <= j && j + capacity <= |first|
      ensures !WindowFramed(first, capacity, j)
    {
      WindowInPrefix(first, frame[k..], capacity, j);
    }
    assert ScanFrom(first, capacity, 0) == None;
    assert Appended(first, frame[k..], capacity) == whole;
    assert whole[|carry|..|carry| + capacity] == frame;
    ScanFromFinds(whole, capacity, 0, |carry|);
    assert whole[|carry| + capacity..] == [];
  }

  /** The bound on the carry-over bytes in SplitFrameResync is needed: with more carry-over
      than one frame, the second read overflows the buffer, which is reset, and the head of
      the frame is discarded with the old bytes. */
  lemma SplitFrameLostAfterLongCarry()
    ensures var carry := Fill(4, 0xAA);
      && Recv(3, carry, Bytes([HeadByte])) == RecvResult(false, [], carry + [HeadByte], false)
      && Recv(3, carry + [HeadByte], Bytes([0x01, TailByte])) == RecvResult(false, [], [0x01, TailByte], false)
  {
    var carry := Fill(4, 0xAA);
    assert Appended(carry, [HeadByte], 3) == carry + [HeadByte];
    assert ScanFrom(carry + [HeadByte], 3, 0) == None;
    assert Appended(carry + [HeadByte], [0x01, TailByte], 3) == [0x01, TailByte];
  }

  /** With an empty carry-over buffer, every split of a frame into two reads is recovered. */
  lemma SplitFrameFromEmpty(capacity: nat, frame: seq<byte>, k: nat)
    requires capacity >= 3 && |frame| == capacity && Framed(frame) && 1 <= k < capacity
    ensures Recv(capacity, [], Bytes(frame[..k])) == RecvResult(false, [], frame[..k], false)
    ensures Recv(capacity, frame[..k], Bytes(frame[k..])) == RecvResult(true, frame, [], false)
  {
    assert [] + frame == frame && [] + frame[..k] == frame[..k];
    SplitFrameResync(capacity, [], frame, k);
  }

  /** The results of successive `recv_packet` calls, the carry-over bytes threaded through. */
  function RecvAll(capacity: nat, carry: seq<byte>, inputs: seq<Incoming>): (rs: seq<RecvResult>)
    requires capacity >= 3 && forall i :: 0 <= i < |inputs| ==> Delivers(inputs[i], capacity)
    ensures |rs| == |inputs|
    ensures inputs != [] ==> rs[0] == Recv(capacity, carry, inputs[0])
    ensures forall i :: 0 < i < |inputs| ==> rs[i] == Recv(capacity, rs[i - 1].carry, inputs[i])
    decreases |inputs|
  {
    if inputs == [] then []
    else
      var r := Recv(capacity, carry, inputs[0]);
      [r] + RecvAll(capacity, r.carry, inputs[1..])
  }

  /** A transport that always delivers exactly one well-formed frame per read: every call
      succeeds with that frame and the carry-over bytes never change. */
  lemma {:induction false} AlignedStreamNeverBuffers(capacity: nat, carry: seq<byte>, inputs: seq<Incoming>)
    requires capacity >= 3
    requires forall i :: 0 <= i < |inputs| ==>
      inputs[i].Bytes? && |inputs[i].data| == capacity && Framed(inputs[i].data)
    ensures forall i :: 0 <= i < |inputs| ==>
      RecvAll(capacity, carry, inputs)[i] == RecvResult(true, inputs[i].data, carry, false)
    decreases |inputs|
  {
    if inputs != [] {
      RecvFastPath(capacity, carry, inputs[0].data);
      AlignedStreamNeverBuffers(capacity, carry, inputs[1..]);
      var rs := RecvAll(capacity, carry, inputs);
      assert rs == [Recv(capacity, carry, inputs[0])] + RecvAll(capacity, carry, inputs[1..]);
      forall i | 0 <= i < |inputs|
        ensures rs[i] == RecvResult(true, inputs[i].data, carry, false)
      {
        if i > 0 {
          assert rs[i] == RecvAll(capacity, carry, inputs[1..])[i - 1];
          assert inputs[1..][i - 1] == inputs[i];
        }
      }
    }
  }

  /** A run of `n` copies of byte `b`. */
  function Fill(n: nat, b: byte): (r: seq<byte>)
    ensures |r| == n && forall i :: 0 <= i < n ==> r[i] == b
  {
    seq(n, _ => b)
  }

  /** Capacity 16: junk `0xAA` x5, then a frame, then `0xBB` x3, arriving as reads of 9 and 15
      bytes. The first call buffers; the second frames the packet and keeps the three `0xBB`. */
  lemma ScenarioSixteen(payload: seq<byte>, check: byte)
    requires |payload| == 13
    ensures var frame := [HeadByte] + payload + [check, TailByte];
      var first := Fill(5, 0xAA) + [HeadByte] + payload[..3];
      var second := payload[3..] + [check, TailByte] + Fill(3, 0xBB);
      && |first| == 9 && |second| == 15
      && Recv(16, [], Bytes(first)) == RecvResult(false, [], first, false)
      && Recv(16, first, Bytes(second)) == RecvResult(true, frame, Fill(3, 0xBB), false)
  {
    var frame := [HeadByte] + payload + [check, TailByte];
    var first := Fill(5, 0xAA) + [HeadByte] + payload[..3];
    var second := payload[3..] + [check, TailByte] + Fill(3, 0xBB);
    assert Appended([], first, 16) == first;
    assert ScanFrom(first, 16, 0) == None;
    var buf := first + second;
    assert Appended(first, second, 16) == buf;
    assert buf == Fill(5, 0xAA) + frame + Fill(3, 0xBB);
    assert buf[5..21] == frame;
    forall j | 0 <= j < 5 ensures !WindowFramed(buf, 16, j) {
      assert buf[j..j + 16][0] == buf[j] == 0xAA;
    }
    ScanFromFinds(buf, 16, 0, 5);
    assert buf[21..] == Fill(3, 0xBB);
  }
}
