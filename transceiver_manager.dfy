/**
 * `TransceiverManager<Capacity>`: frames packets out of the byte stream of one transport,
 * and sends packets either synchronously or through a policy-governed queue drained by
 * the background sender. Each background loop is modelled by one step of its body.
 */
module Transceiver {
  import opened Wrappers
  import opened Packet
  import opened Transport
  import opened Framing
  import opened SendPolicy
  import opened Sequences

  /** The maximum queue size the constructor and `set_send_mode` use when none is given. */
  const DefaultMaxQueueSize: nat := 100

  class TransceiverManager {
    const capacity: nat
    const transport: Transport
    /** The scratch buffer one read lands in. */
    const tmpBuffer: array<byte>
    /** The carry-over buffer; its first `recvBufLen` bytes are live. */
    const recvBuffer: array<byte>
    var recvBufLen: nat
    var useRealtimeSend: bool
    var useRealtimeRead: bool
    /** The send queue, oldest first; each element is the byte image of a queued packet. */
    var realtimePackets: seq<seq<byte>>
    var latestPacket: Option<seq<byte>>
    var sendMode: SendMode
    var maxQueueSize: nat

    ghost predicate Valid()
      reads this
    {
      && capacity >= 3
      && tmpBuffer.Length == capacity
      && recvBuffer.Length == 2 * capacity
      && tmpBuffer != recvBuffer
      && recvBufLen <= 2 * capacity
      && (forall i :: 0 <= i < |realtimePackets| ==> |realtimePackets[i]| == capacity)
      && (latestPacket.Some? ==> |latestPacket.value| == capacity)
    }

    /** The live carry-over bytes. */
    ghost function Carry(): seq<byte>
      requires Valid()
      reads this, recvBuffer
    {
      recvBuffer[..recvBufLen]
    }

    constructor (capacity: nat, transporter: Transport, mode: SendMode := Fifo, maxQueueSize: nat := DefaultMaxQueueSize)
      requires capacity >= 3
      ensures Valid() && fresh(tmpBuffer) && fresh(recvBuffer)
      ensures this.capacity == capacity && transport == transporter
      ensures sendMode == mode && this.maxQueueSize == maxQueueSize
      ensures Carry() == [] && realtimePackets == [] && latestPacket == None
      ensures !useRealtimeSend && !useRealtimeRead
      ensures tmpBuffer[..] == Fill(capacity, 0) && recvBuffer[..] == Fill(2 * capacity, 0)
    {
      this.capacity := capacity;
      transport := transporter;
      tmpBuffer := new byte[capacity](_ => 0);
      recvBuffer := new byte[2 * capacity](_ => 0);
      recvBufLen := 0;
      useRealtimeSend, useRealtimeRead := false, false;
      realtimePackets := [];
      latestPacket := None;
      sendMode := mode;
      this.maxQueueSize := maxQueueSize;
    }

    /** Construction with a possibly null transport: null is the constructor's
        `std::invalid_argument` and yields no manager. */
    static method Create(capacity: nat, transporter: Transport?, mode: SendMode := Fifo, maxQueueSize: nat := DefaultMaxQueueSize)
      returns (r: Option<TransceiverManager>)
      requires capacity >= 3
      ensures r.None? <==> transporter == null
      ensures r.Some? ==>
        && fresh(r.value) && r.value.Valid() && r.value.transport == transporter
        && r.value.capacity == capacity && r.value.Carry() == [] && r.value.realtimePackets == []
        && r.value.sendMode == mode && r.value.maxQueueSize == maxQueueSize
    {
      if transporter == null {
        return None;
      }
      var m := new TransceiverManager(capacity, transporter, mode, maxQueueSize);
      return Some(m);
    }

    /** `check_packet(buffer + offset, len)`: exactly one packet's worth of bytes whose window
        passes the packet's head/tail test; the check byte is not validated. */
    predicate CheckPacket(buf: array<byte>, offset: nat, len: int)
      requires capacity >= 1 && offset + capacity <= buf.Length
      reads buf
      ensures CheckPacket(buf, offset, len) <==> len == capacity && Framed(buf[offset..offset + capacity])
    {
      len == capacity && buf[offset] == HeadByte && buf[offset + capacity - 1] == TailByte
    }

    /** `simple_send_packet`: one write; a short write reconnects (`close`, then `open`). */
    method SimpleSendPacket(bytes: seq<byte>, written: int) returns (ok: bool)
      modifies transport
      ensures ok <==> written == capacity
      ensures transport.log == old(transport.log) + [WriteCall(bytes)] + (if ok then [] else [CloseCall, OpenCall])
    {
      var n := transport.Write(bytes, written);
      if n == capacity {
        return true;
      }
      transport.Close();
      transport.Open();
      return false;
    }

    /** `send_packet`: with the background sender on, queue the packet under the send mode and
        report success; otherwise write it now. `written` is the count the device reports. */
    method SendPacket(packet: FixedPacket, written: int) returns (ok: bool)
      requires Valid() && packet.Valid() && packet.capacity == capacity
      modifies this`realtimePackets, transport
      ensures Valid()
      ensures useRealtimeSend ==>
        && ok && transport.log == old(transport.log)
        && realtimePackets == Enqueue(sendMode, maxQueueSize, old(realtimePackets), packet.buffer[..])
      ensures !useRealtimeSend ==>
        && realtimePackets == old(realtimePackets)
        && (ok <==> written == capacity)
        && transport.log == old(transport.log) + [WriteCall(packet.buffer[..])] + (if ok then [] else [CloseCall, OpenCall])
    {
      var bytes := packet.buffer[..];
      if !useRealtimeSend {
        ok := SimpleSendPacket(bytes, written);
        return;
      }
      match sendMode {
        case LatestOnly =>
          while realtimePackets != []
            invariant Valid() && transport.log == old(transport.log)
            decreases |realtimePackets|
          {
            DropOldest();
          }
          PushBack(bytes);
        case LimitedFifo =>
          if |realtimePackets| >= maxQueueSize && realtimePackets != [] {
            DropOldest();
          }
          PushBack(bytes);
        case Fifo =>
          PushBack(bytes);
      }
      return true;
    }

    /** `set_send_mode`: store the mode and bound, then re-normalise the queue to the new policy. */
    method SetSendMode(mode: SendMode, maxSize: nat := DefaultMaxQueueSize)
      requires Valid()
      modifies this`sendMode, this`maxQueueSize, this`realtimePackets
      ensures Valid()
      ensures sendMode == mode && maxQueueSize == maxSize
      ensures realtimePackets == Normalize(mode, maxSize, old(realtimePackets))
    {
      sendMode := mode;
      maxQueueSize := maxSize;
      if mode == LatestOnly && realtimePackets != [] {
        var last := realtimePackets[|realtimePackets| - 1];
        while realtimePackets != []
          invariant Valid() && sendMode == mode && maxQueueSize == maxSize
          decreases |realtimePackets|
        {
          DropOldest();
        }
        PushBack(last);
      }
      if mode == LimitedFifo && |realtimePackets| > maxQueueSize {
        while |realtimePackets| > maxQueueSize
          invariant Valid() && sendMode == mode && maxQueueSize == maxSize
          invariant maxQueueSize <= |realtimePackets| <= |old(realtimePackets)|
          invariant realtimePackets == old(realtimePackets)[|old(realtimePackets)| - |realtimePackets|..]
          decreases |realtimePackets|
        {
          DropOldest();
        }
      }
    }

    /** `pop` on the send queue. */
    method DropOldest()
      requires Valid() && realtimePackets != []
      modifies this`realtimePackets
      ensures Valid() && realtimePackets == old(realtimePackets)[1..]
    {
      realtimePackets := realtimePackets[1..];
    }

    /** `push` on the send queue of a packet image. */
    method PushBack(bytes: seq<byte>)
      requires Valid() && |bytes| == capacity
      modifies this`realtimePackets
      ensures Valid() && realtimePackets == old(realtimePackets) + [bytes]
    {
      realtimePackets := realtimePackets + [bytes];
    }

    /** One pass of the background sender: pop the oldest queued packet, if any, and write it. */
    method SendLoopStep(written: int) returns (sent: bool)
      requires Valid()
      modifies this`realtimePackets, transport
      ensures Valid()
      ensures old(realtimePackets) == [] ==> !sent && realtimePackets == [] && transport.log == old(transport.log)
      ensures old(realtimePackets) != [] ==>
        && realtimePackets == old(realtimePackets)[1..]
        && (sent <==> written == capacity)
        && transport.log == old(transport.log) + [WriteCall(old(realtimePackets)[0])] + (if sent then [] else [CloseCall, OpenCall])
    {
      if realtimePackets == [] {
        return false;
      }
      var packet := realtimePackets[0];
      realtimePackets := realtimePackets[1..];
      sent := SimpleSendPacket(packet, written);
    }

    /** Drop the first `from` live bytes of the carry-over buffer by moving the rest to the front. */
    method Compact(from: nat)
      requires Valid() && from <= recvBufLen
      modifies recvBuffer, this`recvBufLen
      ensures Valid()
      ensures Carry() == old(Carry())[from..]
    {
      ghost var before := recvBuffer[..];
      var k := 0;
      var j := from;
      while j < recvBufLen
        invariant from <= j <= recvBufLen && k == j - from
        invariant recvBufLen == old(recvBufLen)
        invariant forall t :: 0 <= t < k ==> recvBuffer[t] == before[from + t]
        invariant forall t :: k <= t < recvBuffer.Length ==> recvBuffer[t] == before[t]
        decreases recvBufLen - j
      {
        recvBuffer[k] := recvBuffer[j];
        j := j + 1;
        k := k + 1;
      }
      recvBufLen := k;
    }

    /** Append the first `n` scratch bytes to the carry-over buffer, emptying it first when
        the result would not fit. */
    method AppendScratch(n: nat)
      requires Valid() && n <= capacity
      requires recvBuffer != tmpBuffer
      modifies recvBuffer, this`recvBufLen
      ensures Valid()
      ensures Carry() == Appended(old(Carry()), old(tmpBuffer[..n]), capacity)
    {
      if recvBufLen + n > 2 * capacity {
        recvBufLen := 0;
      }
      forall k | 0 <= k < n {
        recvBuffer[recvBufLen + k] := tmpBuffer[k];
      }
      recvBufLen := recvBufLen + n;
    }

    /** `recv_packet`: one read of up to `capacity` bytes, then the fast path, or append and
        scan for the earliest framed window. `input` is what the read delivers. */
    method RecvPacket(packet: FixedPacket, input: Incoming) returns (ok: bool)
      requires Valid() && packet.Valid() && packet.capacity == capacity
      requires packet.buffer != tmpBuffer && packet.buffer != recvBuffer
      requires Delivers(input, capacity)
      modifies this`recvBufLen, tmpBuffer, recvBuffer, packet.buffer, transport
      ensures Valid()
      ensures var r := Recv(capacity, old(Carry()), input);
        && ok == r.ok
        && Carry() == r.carry
        && packet.buffer[..] == (if r.ok then r.frame else old(packet.buffer[..]))
        && transport.log == old(transport.log) + [ReadCall(capacity)] + (if r.reconnect then [CloseCall, OpenCall] else [])
    {
      ghost var carry, image := Carry(), packet.buffer[..];
      var n := transport.Read(tmpBuffer, capacity, input);
      assert Carry() == carry && packet.buffer[..] == image;
      if n <= 0 {
        RecvFailedRead(capacity, carry, input);
        transport.Close();
        transport.Open();
        return false;
      }
      ok := RecvData(packet, n, input.data);
    }

    /** `recv_packet` after a read that delivered `n` bytes, now in the scratch buffer. */
    method RecvData(packet: FixedPacket, n: nat, ghost data: seq<byte>) returns (ok: bool)
      requires Valid() && packet.Valid() && packet.capacity == capacity
      requires packet.buffer != tmpBuffer && packet.buffer != recvBuffer
      requires 0 < n == |data| <= capacity && tmpBuffer[..n] == data
      modifies this`recvBufLen, recvBuffer, packet.buffer
      ensures Valid()
      ensures var r := Recv(capacity, old(Carry()), Bytes(data));
        && ok == r.ok
        && Carry() == r.carry
        && packet.buffer[..] == (if r.ok then r.frame else old(packet.buffer[..]))
    {
      ghost var carry := Carry();
      if CheckPacket(tmpBuffer, 0, n) {
        assert tmpBuffer[0..capacity] == data;
        RecvFastPath(capacity, carry, data);
        ok := packet.CopyFrom(tmpBuffer, 0);
        return;
      }
      RecvSlowCases(capacity, carry, data);
      ok := RecvBuffered(packet, n, data);
    }

    /** The rest of `recv_packet` after a read of `n` bytes that is not one aligned frame:
        append, scan for the earliest framed window, copy it out and compact. */
    method RecvBuffered(packet: FixedPacket, n: nat, ghost data: seq<byte>) returns (ok: bool)
      requires Valid() && packet.Valid() && packet.capacity == capacity
      requires packet.buffer != tmpBuffer && packet.buffer != recvBuffer
      requires 0 < n == |data| <= capacity && tmpBuffer[..n] == data
      requires !(n == capacity && Framed(data))
      modifies this`recvBufLen, recvBuffer, packet.buffer
      ensures Valid()
      ensures var buf := Appended(old(Carry()), data, capacity);
        var found := ScanFrom(buf, capacity, 0);
        && ok == found.Some?
        && Carry() == (if found.None? then buf else buf[found.value + capacity..])
        && packet.buffer[..] == (if found.None? then old(packet.buffer[..]) else buf[found.value..found.value + capacity])
    {
      AppendScratch(n);
      ok := Extract(packet);
    }

    /** Scan the carry-over bytes; on a hit, take the earliest framed window out into the packet. */
    method Extract(packet: FixedPacket) returns (ok: bool)
      requires Valid() && packet.Valid() && packet.capacity == capacity && packet.buffer != recvBuffer
      modifies this`recvBufLen, recvBuffer, packet.buffer
      ensures Valid()
      ensures var found := ScanFrom(old(Carry()), capacity, 0);
        && ok == found.Some?
        && Carry() == (if found.None? then old(Carry()) else old(Carry())[found.value + capacity..])
        && packet.buffer[..] == (if found.None? then old(packet.buffer[..]) else old(Carry())[found.value..found.value + capacity])
    {
      var found := Scan();
      if found.None? {
        return false;
      }
      ok := TakeFrame(packet, found.value);
    }

    /** Copy the live window at `i` into the packet, then drop it and every byte before it. */
    method TakeFrame(packet: FixedPacket, i: nat) returns (ok: bool)
      requires Valid() && packet.Valid() && packet.capacity == capacity
      requires packet.buffer != recvBuffer && i + capacity <= recvBufLen
      modifies this`recvBufLen, recvBuffer, packet.buffer
      ensures Valid() && ok
      ensures packet.buffer[..] == old(Carry())[i..i + capacity]
      ensures Carry() == old(Carry())[i + capacity..]
    {
      SliceOfPrefix(recvBuffer[..], recvBufLen, i, i + capacity);
      ok := packet.CopyFrom(recvBuffer, i);
      Compact(i + capacity);
    }

    /** The scan loop of `recv_packet`: the earliest offset whose window passes `CheckPacket`. */
    method Scan() returns (found: Option<nat>)
      requires Valid()
      ensures found == ScanFrom(Carry(), capacity, 0)
      ensures found.Some? ==> found.value + capacity <= recvBufLen
    {
      ghost var buf := Carry();
      var i := 0;
      while i + capacity <= recvBufLen
        invariant ScanFrom(buf, capacity, i) == ScanFrom(buf, capacity, 0)
        decreases recvBufLen - i
      {
        SliceOfPrefix(recvBuffer[..], recvBufLen, i, i + capacity);
        if CheckPacket(recvBuffer, i, capacity) {
          return Some(i);
        }
        i := i + 1;
      }
      return None;
    }

    /** One pass of the background receiver: a framed packet becomes the cached latest packet. */
    method RecvLoopStep(packet: FixedPacket, input: Incoming) returns (ok: bool)
      requires Valid() && packet.Valid() && packet.capacity == capacity
      requires packet.buffer != tmpBuffer && packet.buffer != recvBuffer
      requires Delivers(input, capacity)
      modifies this`recvBufLen, this`latestPacket, tmpBuffer, recvBuffer, packet.buffer, transport
      ensures Valid()
      ensures var r := Recv(capacity, old(Carry()), input);
        && ok == r.ok
        && Carry() == r.carry
        && latestPacket == (if r.ok then Some(r.frame) else old(latestPacket))
    {
      ok := RecvPacket(packet, input);
      if ok {
        latestPacket := Some(packet.buffer[..]);
      }
    }

    /** `get_latest_packet`: a snapshot of the cached packet; the cache is not drained. */
    method GetLatestPacket() returns (r: Option<seq<byte>>)
      requires Valid()
      ensures r == latestPacket
      ensures r.Some? ==> |r.value| == capacity
    {
      r := latestPacket;
    }

    /** `enable_realtime_send`: a request for the state already in force does nothing;
        otherwise the flag flips and the worker is started or joined (`toggled`). */
    method EnableRealtimeSend(enable: bool) returns (toggled: bool)
      modifies this`useRealtimeSend
      ensures useRealtimeSend == enable
      ensures toggled <==> old(useRealtimeSend) != enable
    {
      if enable == useRealtimeSend {
        return false;
      }
      useRealtimeSend := enable;
      return true;
    }

    /** `enable_realtime_read`: the same guard for the background receiver. */
    method EnableRealtimeRead(enable: bool) returns (toggled: bool)
      modifies this`useRealtimeRead
      ensures useRealtimeRead == enable
      ensures toggled <==> old(useRealtimeRead) != enable
    {
      if enable == useRealtimeRead {
        return false;
      }
      useRealtimeRead := enable;
      return true;
    }
  }
}
