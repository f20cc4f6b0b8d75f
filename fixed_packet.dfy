/**
 * The fixed-length packet wire format `FixedPacket<Capacity>`:
 * `[0xFF][payload ...][check byte][0x0D]`, exactly `capacity` bytes.
 */
module Packet {
  import opened Wrappers

  type byte = bv8

  const HeadByte: byte := 0xFF
  const TailByte: byte := 0x0D

  /** The modulus of `std::size_t` arithmetic on the 64-bit targets the source is built for. */
  const SizeModulus: int := 0x1_0000_0000_0000_0000

  /** The head/tail test over the bytes of one frame; the check byte plays no part in it. */
  predicate Framed(s: seq<byte>) {
    |s| >= 1 && s[0] == HeadByte && s[|s| - 1] == TailByte
  }

  /** The offset test of `load_data`/`unload_data` for a field of `dataLen` bytes at `index`. */
  predicate InPayload(capacity: nat, index: nat, dataLen: nat) {
    index > 0 && index + dataLen < capacity - 1
  }

  /** The same test evaluated in `std::size_t`, where `index + DataLen` wraps modulo 2^64. */
  predicate InPayloadAsWritten(capacity: nat, index: nat, dataLen: nat)
    requires index < SizeModulus && dataLen < SizeModulus
  {
    index > 0 && (index + dataLen) % SizeModulus < capacity - 1
  }

  /** `s` with the bytes at `[index, index + |data|)` replaced by `data` (the `memcpy` of `load_data`). */
  function Splice(s: seq<byte>, index: nat, data: seq<byte>): (r: seq<byte>)
    requires index + |data| <= |s|
    ensures |r| == |s|
    ensures forall k :: 0 <= k < |s| && !(index <= k < index + |data|) ==> r[k] == s[k]
    ensures forall k :: 0 <= k < |data| ==> r[index + k] == data[k]
  {
    s[..index] + data + s[index + |data|..]
  }

  /** An accepted field lies wholly inside the payload bytes `[1, capacity - 3]`, and every
      non-empty field inside them is accepted: the strict bound keeps the check byte out. */
  lemma InPayloadIsPayloadWindow(capacity: nat, index: nat, dataLen: nat)
    requires capacity >= 3 && dataLen >= 1
    ensures InPayload(capacity, index, dataLen) <==> 1 <= index && index + dataLen - 1 <= capacity - 3
  {
  }

  /** Without wrap-around the size_t test and the unbounded one agree. */
  lemma AsWrittenAgreesWithoutWrap(capacity: nat, index: nat, dataLen: nat)
    requires index + dataLen < SizeModulus
    ensures InPayloadAsWritten(capacity, index, dataLen) == InPayload(capacity, index, dataLen)
  {
  }

  /** A huge `index` makes `index + DataLen` wrap, and the size_t test accepts a 4-byte field
      that starts far past the end of a 16-byte buffer. */
  lemma AsWrittenAdmitsOutOfBounds()
    ensures InPayloadAsWritten(16, SizeModulus - 2, 4)
    ensures !InPayload(16, SizeModulus - 2, 4)
    ensures SizeModulus - 2 + 4 > 16
  {
    assert (SizeModulus - 2 + 4) % SizeModulus == 2;
  }

  /** Round trip: reading the field just written at an accepted offset yields the written bytes. */
  lemma LoadUnloadRoundTrip(s: seq<byte>, data: seq<byte>, index: nat)
    requires InPayload(|s|, index, |data|)
    ensures Splice(s, index, data)[index..index + |data|] == data
  {
    var r := Splice(s, index, data);
    assert forall k :: 0 <= k < |data| ==> r[index..index + |data|][k] == data[k];
  }

  /** Loading at an accepted offset keeps the head, the check byte and the tail, hence validity. */
  lemma LoadKeepsFrameBytes(s: seq<byte>, data: seq<byte>, index: nat)
    requires |s| >= 3 && InPayload(|s|, index, |data|)
    ensures var r := Splice(s, index, data);
      r[0] == s[0] && r[|s| - 2] == s[|s| - 2] && r[|s| - 1] == s[|s| - 1] && (Framed(r) <==> Framed(s))
  {
  }

  /** `is_valid` does not look at the check byte. */
  lemma FramedIgnoresCheckByte(s: seq<byte>, b: byte)
    requires |s| >= 3
    ensures Framed(s[|s| - 2 := b]) == Framed(s)
  {
  }

  class FixedPacket {
    const capacity: nat
    const buffer: array<byte>

    ghost predicate Valid() {
      capacity >= 3 && buffer.Length == capacity
    }

    /** A new packet: head and tail in place, every other byte zero. */
    constructor (capacity: nat)
      requires capacity >= 3
      ensures Valid() && fresh(buffer) && this.capacity == capacity
      ensures buffer[0] == HeadByte && buffer[capacity - 1] == TailByte
      ensures forall i :: 0 < i < capacity - 1 ==> buffer[i] == 0
      ensures IsValid()
    {
      this.capacity := capacity;
      var b := new byte[capacity](_ => 0);
      b[0] := HeadByte;
      b[capacity - 1] := TailByte;
      buffer := b;
    }

    /** `is_valid`: an O(1) look at the first and the last byte. */
    predicate IsValid()
      requires Valid()
      reads buffer
      ensures IsValid() <==> Framed(buffer[..])
    {
      buffer[0] == HeadByte && buffer[capacity - 1] == TailByte
    }

    /** `clear`: zero the payload and the check byte, keep head and tail. */
    method Clear()
      requires Valid()
      modifies buffer
      ensures buffer[0] == old(buffer[0]) && buffer[capacity - 1] == old(buffer[capacity - 1])
      ensures forall i :: 0 < i < capacity - 1 ==> buffer[i] == 0
    {
      forall i | 0 < i < capacity - 1 {
        buffer[i] := 0;
      }
    }

    /** `set_check_byte`: only byte `capacity - 2` changes. */
    method SetCheckByte(checkByte: byte)
      requires Valid()
      modifies buffer
      ensures buffer[..] == old(buffer[..])[capacity - 2 := checkByte]
    {
      buffer[capacity - 2] := checkByte;
    }

    /** `copy_from`: copy `capacity` bytes verbatim from `src` starting at `offset`;
        a null source is the `std::invalid_argument` error and changes nothing. */
    method CopyFrom(src: array?<byte>, offset: nat) returns (ok: bool)
      requires Valid()
      requires src != null ==> src != buffer && offset + capacity <= src.Length
      modifies buffer
      ensures ok <==> src != null
      ensures ok ==> buffer[..] == src[offset..offset + capacity]
      ensures !ok ==> buffer[..] == old(buffer[..])
    {
      if src == null {
        return false;
      }
      forall k | 0 <= k < capacity {
        buffer[k] := src[offset + k];
      }
      return true;
    }

    /** `load_data`: write a field of `|data|` bytes at `index` when the offset test passes,
        otherwise report no value and leave the buffer alone. */
    method LoadData(data: seq<byte>, index: nat) returns (r: Option<bool>)
      requires Valid()
      modifies buffer
      ensures r.Some? <==> InPayload(capacity, index, |data|)
      ensures r.Some? ==> r.value
      ensures buffer[..] == if r.Some? then Splice(old(buffer[..]), index, data) else old(buffer[..])
    {
      if index > 0 && index + |data| < capacity - 1 {
        forall k | 0 <= k < |data| {
          buffer[index + k] := data[k];
        }
        return Some(true);
      }
      return None;
    }

    /** `unload_data`: read a field of `dataLen` bytes at `index` under the same offset test. */
    method UnloadData(index: nat, dataLen: nat) returns (r: Option<seq<byte>>)
      requires Valid()
      ensures r.Some? <==> InPayload(capacity, index, dataLen)
      ensures r.Some? ==> |r.value| == dataLen && r.value == buffer[index..index + dataLen]
    {
      if index > 0 && index + dataLen < capacity - 1 {
        return Some(buffer[index..index + dataLen]);
      }
      return None;
    }
  }
}
