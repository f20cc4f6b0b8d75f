/**
 * The transport boundary (`ProtocolInterface`): `open`, `close`, `read`, `write`.
 * What the device delivers is not modelled; it is an argument of each call, and the
 * transport object records the calls made on it, in order.
 */
module Transport {
  import opened Packet

  /** One call made on the transport. */
  datatype Call = OpenCall | CloseCall | ReadCall(len: nat) | WriteCall(bytes: seq<byte>)

  /** What one `read` delivers: bytes (a count of zero or more) or a negative error code. */
  datatype Incoming = Bytes(data: seq<byte>) | Failure(code: int)

  /** A read of up to `len` bytes delivers at most `len` of them; errors are negative. */
  predicate Delivers(input: Incoming, len: nat) {
    match input
    case Bytes(data) => |data| <= len
    case Failure(code) => code < 0
  }

  /** The count `read` returns for `input`. */
  function ReadCount(input: Incoming): int {
    match input
    case Bytes(data) => |data|
    case Failure(code) => code
  }

  class Transport {
    var log: seq<Call>

    constructor ()
      ensures log == []
    {
      log := [];
    }

    method Open()
      modifies this
      ensures log == old(log) + [OpenCall]
    {
      log := log + [OpenCall];
    }

    method Close()
      modifies this
      ensures log == old(log) + [CloseCall]
    {
      log := log + [CloseCall];
    }

    /** `read(buffer, len)`: the delivered bytes land at the front of `buf`; the rest is untouched. */
    method Read(buf: array<byte>, len: nat, input: Incoming) returns (n: int)
      requires len <= buf.Length && Delivers(input, len)
      modifies this, buf
      ensures log == old(log) + [ReadCall(len)]
      ensures n == ReadCount(input) && n <= len
      ensures input.Bytes? ==> buf[..n] == input.data && buf[n..] == old(buf[n..])
      ensures input.Failure? ==> buf[..] == old(buf[..])
    {
      log := log + [ReadCall(len)];
      match input {
        case Bytes(data) =>
          forall k | 0 <= k < |data| {
            buf[k] := data[k];
          }
          n := |data|;
        case Failure(code) =>
          n := code;
      }
    }

    /** `write(buffer, len)`: the device reports `written` bytes sent. */
    method Write(bytes: seq<byte>, written: int) returns (n: int)
      modifies this
      ensures log == old(log) + [WriteCall(bytes)]
      ensures n == written
    {
      log := log + [WriteCall(bytes)];
      n := written;
    }
  }
}
