# RMCV serial framing, message queues and logger filter in Dafny

This project models the reusable core of the RMCV robot-vision stack and proves properties of it:

- **`FixedPacket<Capacity>`** (module `Packet`, `fixed_packet.dfy`). A fixed-length packet is
  `[0xFF][payload ...][check byte][0x0D]`. The model is a class over an `array<bv8>` of
  `capacity >= 3` bytes. It has construction, `clear`, `set_check_byte`, a verbatim `copy_from`,
  the bounds-checked `load_data` / `unload_data` of a field of `DataLen` bytes, and the
  head/tail test `is_valid`.
- **The transport boundary** (module `Transport`, `transport.dfy`). `ProtocolInterface` becomes a
  class that only records the calls made on it. What a `read` delivers and what a `write` reports
  are arguments of each call.
- **`TransceiverManager<Capacity>`** (modules `Framing`, `SendPolicy` and `Transceiver`).
  - `recv_packet` does one read into a scratch buffer and has a fast path for an exactly aligned
    frame. Otherwise it appends to a carry-over buffer of `2 * Capacity` bytes (resetting the buffer
    on overflow), scans for the earliest window with a valid head and tail, copies that window out
    and compacts the rest to the front of the buffer.
  - `Framing.Recv` states this rule as a function. The imperative `RecvPacket`, with its append,
    scan and compaction loops, is proved to compute exactly that function.
  - The `FIFO`, `LATEST_ONLY` and `LIMITED_FIFO` send-queue policies of `send_packet` are the
    functions `SendPolicy.Enqueue` and `SendPolicy.Normalize`.
  - `set_send_mode`'s re-normalisation is proved against those functions, and so are simple send
    with its reconnect and single steps of the background sender and receiver.
- **`umt::Subscriber` / `umt::Publisher` queue logic** (module `Umt`, `message.dfy`).
  - A pipe class holds the publisher and subscriber lists. A subscriber's FIFO is bounded by
    `fifo_size`, dropping the oldest message, and `fifo_size == 0` means unbounded.
  - The model covers `pop` and its distinct error outcomes, `clear`, `reset`, `bind`, the
    publisher's fan-out `push` and its `reset`, which notifies every subscriber when the last
    publisher leaves. It also covers the latency ring index, which advances modulo 1024.
- **The logger's decision logic** (module `Logger`, `logger.dfy`). It covers the case-insensitive
  `string_to_mode`, the three-part filter of `print`, the prefix lookup that follows it, the white
  and black node lists, and `vec_to_str`.

Modules `Wrappers` (`Option`) and `Sequences` (the newest-`n` suffix of a queue, and removal of one
value from a list) are shared helpers.

`load_data` accepts a field only when `index > 0 && index + DataLen < Capacity - 1`, that is,
when the field lies in bytes `1 .. capacity - 3`, so a field can never overwrite the check byte
(`Packet.InPayloadIsPayloadWindow`).

The manager's constructor defaults to `FIFO` with a queue bound of 100, and `set_send_mode`
defaults its bound to 100; the model gives `Create`, the constructor and `SetSendMode` the same
default arguments (`Transceiver.DefaultMaxQueueSize`).

## Model

| member | source | states |
|---|---|---|
| Packet.FixedPacket.constructor | hardware/serial/fixed_packet.hpp:29-33 | a new packet has the head byte first, the tail byte last, zeros between, and passes `is_valid` |
| Packet.FixedPacket.IsValid | hardware/serial/fixed_packet.hpp:121-123 | the O(1) test of the first and last byte holds exactly when the whole buffer is `Framed` |
| Packet.FixedPacket.Clear | hardware/serial/fixed_packet.hpp:39-41 | head and tail are kept; every byte strictly between them becomes zero |
| Packet.FixedPacket.SetCheckByte | hardware/serial/fixed_packet.hpp:48-50 | the new buffer is the old one with only byte `capacity - 2` replaced |
| Packet.FixedPacket.CopyFrom | hardware/serial/fixed_packet.hpp:58-63 | a null source is the error case and changes nothing; otherwise the buffer becomes the `capacity` source bytes verbatim |
| Packet.FixedPacket.LoadData | hardware/serial/fixed_packet.hpp:83-93 | succeeds (`Some(true)`) exactly when the offset test passes; then the buffer is the old one with the field spliced in, and otherwise it is unchanged |
| Packet.FixedPacket.UnloadData | hardware/serial/fixed_packet.hpp:104-114 | under the same offset test, returns exactly the `DataLen` bytes at `index`; otherwise no value |
| Packet.Splice | hardware/serial/fixed_packet.hpp:88 | the `memcpy` of a field keeps the length, writes the field's bytes at `index` and leaves every other byte alone |
| Packet.InPayloadIsPayloadWindow | hardware/serial/fixed_packet.hpp:86 | the offset test accepts a non-empty field exactly when it lies within bytes `1 .. capacity - 3`, so the head, the check byte and the tail are out of reach |
| Packet.AsWrittenAgreesWithoutWrap | hardware/serial/fixed_packet.hpp:86 | when `index + DataLen` does not wrap in `size_t`, the test as written equals the unbounded one |
| Packet.AsWrittenAdmitsOutOfBounds | hardware/serial/fixed_packet.hpp:86 | with `index = 2^64 - 2` and `DataLen = 4`, the `size_t` test passes on a 16-byte packet although the field lies outside the buffer |
| Packet.LoadUnloadRoundTrip | hardware/serial/fixed_packet.hpp:83-114 | unloading a field just loaded at an accepted offset returns the loaded bytes |
| Packet.LoadKeepsFrameBytes | hardware/serial/fixed_packet.hpp:86-89 | loading at an accepted offset keeps the head, the check byte and the tail, so validity is unchanged |
| Packet.FramedIgnoresCheckByte | hardware/serial/fixed_packet.hpp:121-123 | changing the check byte never changes `is_valid` |
| Transport.Transport.Open | hardware/serial/protocol/protocol_interface.hpp:22 | the call is appended to the transport's log |
| Transport.Transport.Close | hardware/serial/protocol/protocol_interface.hpp:23 | the call is appended to the transport's log |
| Transport.Transport.Read | hardware/serial/protocol/protocol_interface.hpp:27 | returns the delivered count (at most `len`, negative on error); the delivered bytes land at the front of the buffer and the rest is untouched |
| Transport.Transport.Write | hardware/serial/protocol/protocol_interface.hpp:28 | logs the bytes written and returns the count the device reports |
| Framing.ScanFrom | hardware/serial/transceiver_manager.hpp:331-334 | a found index has a framed window, and no earlier window from the start point is framed |
| Framing.ScanFromFinds | hardware/serial/transceiver_manager.hpp:331-334 | conversely, the first framed window is exactly what the scan returns |
| Framing.Appended | hardware/serial/transceiver_manager.hpp:322-328 | the carry-over length after appending a read is bounded; on overflow the old bytes do not count |
| Framing.Recv | hardware/serial/transceiver_manager.hpp:311-353 | a success yields a framed packet of exactly `capacity` bytes; the carry-over never exceeds `2 * capacity`; the transport is reconnected exactly when the read count is not positive, and then nothing is framed and the carry-over is kept |
| Framing.RecvFailedRead | hardware/serial/transceiver_manager.hpp:348-353 | a zero or negative read reconnects, fails and keeps the carry-over bytes |
| Framing.RecvFastPath | hardware/serial/transceiver_manager.hpp:317-319 | a read of exactly one well-formed frame is returned as-is and the carry-over bytes are not touched |
| Framing.RecvSlowPath | hardware/serial/transceiver_manager.hpp:320-346 | otherwise, success holds exactly when the appended bytes contain a framed window; the earliest one is returned and the bytes after it become the new carry-over; on failure the appended bytes are kept |
| Framing.RecvSlowCases | hardware/serial/transceiver_manager.hpp:320-346 | on a read that is not one aligned frame, the result is the earliest framed window of the appended bytes with the bytes after it as the new carry-over, or a failure that keeps all the appended bytes |
| Framing.RecvOverflowDiscardsCarry | hardware/serial/transceiver_manager.hpp:322-324 | when the append would overflow, the old carry-over is discarded and at most one read's worth remains |
| Framing.WindowInPrefix | hardware/serial/transceiver_manager.hpp:331-332 | a window inside a prefix is the same window after more bytes arrive |
| Framing.SplitFrameResync | hardware/serial/transceiver_manager.hpp:320-343 | a frame split over two reads of `k` and `capacity - k` bytes is buffered by the first call and recovered intact by the second, consuming the carry-over before it |
| Framing.SplitFrameFromEmpty | hardware/serial/transceiver_manager.hpp:320-343 | from an empty carry-over, every split of a frame into two reads is recovered and leaves nothing buffered |
| Framing.SplitFrameLostAfterLongCarry | hardware/serial/transceiver_manager.hpp:322-324 | with capacity 3 and four carried bytes, a frame split into reads of 1 and 2 bytes is lost: the second read overflows the buffer, the reset discards the head byte, and both calls fail |
| Framing.RecvAll | hardware/serial/transceiver_manager.hpp:311-358 | one result per read: the first is `Recv` on the starting carry-over, and each later one is `Recv` on the carry-over the previous call left |
| Framing.AlignedStreamNeverBuffers | hardware/serial/transceiver_manager.hpp:315-319 | a transport that always delivers one well-formed frame per read makes every call succeed with that frame and never changes the carry-over |
| Framing.ScenarioSixteen | hardware/serial/transceiver_manager.hpp:320-343 | capacity 16, 5 junk bytes, a frame, then 3 trailing bytes, read as 9 and 15 bytes: the first call buffers, and the second frames the packet and keeps the 3 trailing bytes |
| SendPolicy.Enqueue | hardware/serial/transceiver_manager.hpp:276-299 | the queue after `send_packet` is never empty and ends with the new packet |
| SendPolicy.EnqueueAsWritten | hardware/serial/transceiver_manager.hpp:276-299 | the code as written can fail only on an empty queue under `LIMITED_FIFO`; when it succeeds the queue ends with the new packet |
| SendPolicy.EnqueuePreserves | hardware/serial/transceiver_manager.hpp:276-299 | each policy keeps its invariant: at most one packet for `LATEST_ONLY`, at most `max_queue_size` for `LIMITED_FIFO` |
| SendPolicy.EnqueueAllFifo | hardware/serial/transceiver_manager.hpp:294-298 | `FIFO` loses nothing: the queue is the old queue followed by every packet sent, in order |
| SendPolicy.EnqueueAllLatest | hardware/serial/transceiver_manager.hpp:277-283 | after any non-empty run of sends under `LATEST_ONLY`, only the last packet is queued |
| SendPolicy.EnqueueAllLimited | hardware/serial/transceiver_manager.hpp:285-292 | under `LIMITED_FIFO` with bound `n >= 1`, the queue always holds the `n` most recent packets, in send order, never more |
| SendPolicy.AsWrittenPopsEmptyQueue | hardware/serial/transceiver_manager.hpp:287-289 | with `max_queue_size == 0`, the first queued packet pops an empty `std::queue` |
| SendPolicy.AsWrittenAgreesElsewhere | hardware/serial/transceiver_manager.hpp:276-299 | that is the only input on which the code as written misbehaves; on every other input it equals `Enqueue` |
| SendPolicy.LimitedZeroKeepsLatest | hardware/serial/transceiver_manager.hpp:285-292 | with the pop guarded, a zero bound keeps only the newest packet, like a bound of one |
| SendPolicy.NormalizeKeepsNewest | hardware/serial/transceiver_manager.hpp:116-132 | `set_send_mode` keeps only the last packet under `LATEST_ONLY`, the newest `max_queue_size` packets in order under `LIMITED_FIFO`, and everything under `FIFO`; the result meets the new policy's invariant |
| SendPolicy.Normalize | hardware/serial/transceiver_manager.hpp:116-132 | the retained queue is a suffix of the old one, in order; only `LIMITED_FIFO` can empty a non-empty queue |
| Transceiver.TransceiverManager.constructor | hardware/serial/transceiver_manager.hpp:48-63 | both buffers are zero-filled, the carry-over is empty, the queue is empty and both workers are off |
| Transceiver.TransceiverManager.Create | hardware/serial/transceiver_manager.hpp:56-58 | a null transporter is the `invalid_argument` error and yields no manager; otherwise a fresh, valid manager on that transporter |
| Transceiver.TransceiverManager.CheckPacket | hardware/serial/transceiver_manager.hpp:195-208 | a buffer passes exactly when the count equals `Capacity` and the window has a valid head and tail; the check byte is not validated |
| Transceiver.TransceiverManager.SimpleSendPacket | hardware/serial/transceiver_manager.hpp:211-222 | succeeds exactly when the written count equals `Capacity`; otherwise `close` and then `open` are called once |
| Transceiver.TransceiverManager.SendPacket | hardware/serial/transceiver_manager.hpp:271-307 | with the background sender on, the queue becomes `Enqueue` of the old queue, the transport is not touched, and the call succeeds; otherwise it is a simple send and the queue is unchanged |
| Transceiver.TransceiverManager.SetSendMode | hardware/serial/transceiver_manager.hpp:111-133 | mode and bound are stored and the queue becomes `Normalize` of the old queue |
| Transceiver.TransceiverManager.DropOldest | hardware/serial/transceiver_manager.hpp:121 | `pop` removes exactly the oldest queued packet |
| Transceiver.TransceiverManager.PushBack | hardware/serial/transceiver_manager.hpp:123 | `push` appends exactly the given packet image at the back of the queue |
| Transceiver.TransceiverManager.SendLoopStep | hardware/serial/transceiver_manager.hpp:243-258 | an empty queue sends nothing; otherwise exactly the oldest packet is removed and written, with reconnect on a short write |
| Transceiver.TransceiverManager.AppendScratch | hardware/serial/transceiver_manager.hpp:322-328 | the carry-over becomes `Appended(old carry-over, scratch bytes)`, resetting first on overflow |
| Transceiver.TransceiverManager.Scan | hardware/serial/transceiver_manager.hpp:331-343 | the scan loop returns exactly `ScanFrom(carry-over, capacity, 0)` |
| Transceiver.TransceiverManager.Compact | hardware/serial/transceiver_manager.hpp:335-340 | the index-copy loop leaves exactly the old carry-over minus its first `from` bytes |
| Transceiver.TransceiverManager.TakeFrame | hardware/serial/transceiver_manager.hpp:333-342 | the packet receives the window at `i`, and the carry-over keeps exactly the bytes after that window |
| Transceiver.TransceiverManager.Extract | hardware/serial/transceiver_manager.hpp:331-345 | succeeds exactly when the carry-over holds a framed window; the earliest one goes to the packet and the bytes after it stay; on failure nothing changes |
| Transceiver.TransceiverManager.RecvBuffered | hardware/serial/transceiver_manager.hpp:320-345 | append, then extract: the same outcome on the carry-over with the read appended (reset first on overflow) |
| Transceiver.TransceiverManager.RecvData | hardware/serial/transceiver_manager.hpp:315-347 | after a positive read, the result, the new carry-over and the packet bytes are exactly those of `Framing.Recv` |
| Transceiver.TransceiverManager.RecvPacket | hardware/serial/transceiver_manager.hpp:311-353 | the result, the new carry-over, the packet's bytes (unchanged on failure) and the transport calls are exactly those of `Framing.Recv` on the old carry-over |
| Transceiver.TransceiverManager.RecvLoopStep | hardware/serial/transceiver_manager.hpp:373-381 | a successful receive becomes the cached latest packet; a failure leaves the cache alone |
| Transceiver.TransceiverManager.GetLatestPacket | hardware/serial/transceiver_manager.hpp:394-405 | returns the cached packet, if any, without draining it |
| Transceiver.TransceiverManager.EnableRealtimeSend | hardware/serial/transceiver_manager.hpp:231-268 | the flag becomes the requested state, and the worker is started or joined exactly when the state changes |
| Transceiver.TransceiverManager.EnableRealtimeRead | hardware/serial/transceiver_manager.hpp:361-391 | the same idempotence guard for the background receiver |
| Umt.FifoWriteKeepsNewest | umt/Message.hpp:238-244 | the new message is last and the rest is a suffix of the old queue, so at most the oldest message is dropped; with `fifo_size == 0` nothing is dropped; within the bound the result is the newest `fifo_size` messages; over the bound the length does not grow |
| Umt.WriteAllUnbounded | umt/Message.hpp:240-243 | an unbounded subscriber keeps every message in push order |
| Umt.WriteAllBounded | umt/Message.hpp:238-244 | a bounded subscriber within its bound holds exactly the `fifo_size` newest messages, in push order, after any run of writes |
| Umt.OverfullWriteKeepsLength | umt/Message.hpp:240-243 | after the bound is lowered below the queue length, a write replaces the oldest message and the queue does not grow |
| Umt.FifoWrite | umt/Message.hpp:238-244 | `write_obj` leaves a non-empty queue, at most one longer than before, that ends with the new message |
| Umt.Broadcast | umt/Message.hpp:459-462 | over a list of distinct subscribers, every queue becomes `FifoWrite` of its old queue under its own bound, every ring index advances one slot modulo 1024 and every message counter one modulo 2^64; the bounds and lists are untouched |
| Umt.NotifyAll | umt/Message.hpp:433-435 | every ring index of a list of distinct subscribers advances one slot and every message counter one; the queues are untouched |
| Umt.AdvanceIsModular | umt/Message.hpp:384-385 | the latency ring index stays in `[0, 1024)` and after `n` notifies equals the start plus `n`, modulo 1024 |
| Umt.Pipe.constructor | umt/Message.hpp:71-75 | a new pipe has no publishers and no subscribers |
| Umt.Pipe.AddPublisher | umt/Message.hpp:448 | a publisher already pointing at the pipe goes to the front of its list, and the pipe stays consistent |
| Umt.Pipe.AddSubscriber | umt/Message.hpp:149 | a subscriber already pointing at the pipe goes to the front of its list, and the pipe stays consistent |
| Umt.Subscriber.constructor | umt/Message.hpp:102-103 | a new subscriber has the given bound, an empty queue and no pipe |
| Umt.Subscriber.WriteObj | umt/Message.hpp:238-244 | the queue becomes `FifoWrite(fifo_size, old queue, message)` |
| Umt.Subscriber.Deliver | umt/Message.hpp:460-461 | the queue becomes `FifoWrite` of the old queue and the ring index and counter advance by one |
| Umt.Subscriber.Notify | umt/Message.hpp:378-385 | the ring index advances by one modulo 1024 and the 64-bit message counter by one |
| Umt.Subscriber.Clear | umt/Message.hpp:155-158 | the queue becomes empty |
| Umt.Subscriber.SetFifoSize | umt/Message.hpp:164 | only the bound changes; the queue is not trimmed |
| Umt.Subscriber.GetFifoSize | umt/Message.hpp:170 | returns the bound |
| Umt.Subscriber.Pop | umt/Message.hpp:177-186 | unbound raises Empty; bound with no publisher raises Stopped, even with messages queued; otherwise it returns the front message and removes exactly it, or would wait on an empty queue |
| Umt.Subscriber.Reset | umt/Message.hpp:131-139 | the queue becomes empty and the subscriber unbound; the old pipe loses exactly this subscriber and stays consistent |
| Umt.Subscriber.Bind | umt/Message.hpp:145-150 | the subscriber is reset and then put first in the new pipe's subscriber list, with the pipe's lists consistent; a different old pipe loses exactly this subscriber and stays consistent |
| Umt.Subscriber.Join | umt/Message.hpp:147-149 | an unbound subscriber points at the pipe and is put first in its list, which stays consistent |
| Umt.Publisher.constructor | umt/Message.hpp:398 | a new publisher is unbound |
| Umt.Publisher.Push | umt/Message.hpp:455-463 | unbound raises Empty; otherwise each subscriber's queue becomes `FifoWrite` of its old queue under its own bound, its ring index advances one slot and its message counter one, and the lists do not change |
| Umt.Publisher.Reset | umt/Message.hpp:426-438 | the publisher leaves its pipe; when no publisher remains, every subscriber's ring index and message counter advance by one, and otherwise none changes; no subscriber's queue changes |
| Umt.Publisher.Bind | umt/Message.hpp:444-449 | the publisher is reset and then put first in the new pipe's publisher list; a different old pipe loses exactly this publisher; when no other publisher was left on the old pipe its subscribers' ring indices and counters advance by one, and otherwise they are unchanged |
| Umt.Publisher.Rejoin | umt/Message.hpp:444-449 | `bind` to the pipe already bound: the publisher ends first in that pipe's list, and its subscribers are notified exactly when it was the only publisher |
| Umt.Publisher.MoveTo | umt/Message.hpp:444-449 | `bind` to another pipe: the old pipe loses exactly this publisher (notifying its subscribers when none remains) and the new pipe gets it at the front |
| Umt.Publisher.Leave | umt/Message.hpp:426-430 | the publisher is removed from its pipe's list (and unbound, as at line 437); the subscriber list is kept and the pipe stays consistent |
| Umt.Publisher.Join | umt/Message.hpp:446-448 | an unbound publisher points at the pipe and is put first in its list, which stays consistent |
| Logger.StringToMode | plugin/debug/logger.hpp:215-224 | a named mode is returned only for a string whose lower-case form is that mode's name, and `SILENT` exactly when the lower-case form is none of the five names |
| Logger.LowerOfUpper | plugin/debug/logger.hpp:216-217 | ASCII lower-casing undoes upper-casing of a lower-case word |
| Logger.LowerOfLowerWord | plugin/debug/logger.hpp:216-217 | lower-casing leaves a lower-case word unchanged |
| Logger.StringToModeRoundTrip | plugin/debug/logger.hpp:215-222 | each of the five names maps back to its mode, in lower case and in upper case |
| Logger.UnknownNameIsSilent | plugin/debug/logger.hpp:223 | a near miss such as "warn", and the empty string, map to `SILENT` |
| Logger.BlacklistWins | plugin/debug/logger.hpp:177 | a blacklisted node is never emitted, whatever the mode and whitelist |
| Logger.EmptyWhitelistAdmitsAll | plugin/debug/logger.hpp:175-177 | with no whitelist, a node that is not blacklisted is emitted exactly when the mode reaches the minimum |
| Logger.WhitelistRestricts | plugin/debug/logger.hpp:176 | with a whitelist, a node outside it is never emitted |
| Logger.Emits | plugin/debug/logger.hpp:175-177 | the filter of `print`: mode at least the minimum, node whitelisted or no whitelist, node not blacklisted; its consequences are the three lemmas above |
| Logger.PrintAsWritten | plugin/debug/logger.hpp:175-195 | as written, the call throws exactly for a `SILENT` message that passes the filter, and a printed line carries its mode's prefix |
| Logger.Print | plugin/debug/logger.hpp:175-195 | with `SILENT` suppressed, the call never throws and never prints a `SILENT` message |
| Logger.UnknownModeThrows | plugin/debug/logger.hpp:190-191 | an unknown mode name becomes `SILENT`, passes the default filter, and the prefix lookup then throws |
| Logger.PrintNeverThrows | plugin/debug/logger.hpp:175-195 | with `SILENT` suppressed, printing never throws, prints exactly what passes the filter with a named mode under that mode's prefix, and agrees with the code as written on every named mode |
| Logger.LoggerConfig.constructor | plugin/debug/logger.hpp:72-74 | the minimum mode starts at `LOG` and both node lists are empty |
| Logger.LoggerConfig.AddWhitenode | plugin/debug/logger.hpp:79-81 | the node joins the whitelist; the blacklist is untouched; a node that is not blacklisted is then admitted at every mode from the minimum up |
| Logger.LoggerConfig.AddBlacknode | plugin/debug/logger.hpp:83-85 | the node joins the blacklist; the whitelist is untouched; no message of the node is admitted afterwards |
| Logger.JoinedAgrees | plugin/debug/logger.hpp:102-112 | separating the elements by ", " from the back and from the front gives the same text |
| Logger.VecToStr | plugin/debug/logger.hpp:102-112 | the result is "[", the elements separated by ", ", then "]"; an empty vector gives "[]" and one element has no separator |

## Left out

- Threads, mutexes, atomics, condition variables and the 1 ms sleeps: each background loop is modelled by one step of its body (`SendLoopStep`, `RecvLoopStep`). `EnableRealtimeSend` and `EnableRealtimeRead` report whether a worker would be started or joined rather than starting one. The destructor's two disable calls are left out.
- The catch blocks of `simple_send_packet`, `send_packet` and `recv_packet`, which log and return false: the transport calls and the queue pushes are modelled as not throwing. Logging of those errors is left out too.
- `is_open`, `error_message` and the result of `open`, which the manager ignores: they concern device state outside the framing logic.
- The UART and USB transports: only the abstract interface is modelled. What a read delivers and the count a write reports are parameters.
- Packet.FixedPacket.LoadData: a field is modelled as its `DataLen`-byte image, so the branch that rejects a type that is not trivially copyable is not modelled.
- Packet.FixedPacket.UnloadData: it returns the bytes instead of writing them through an output parameter.
- Packet.FixedPacket.CopyFrom: the raw source pointer is modelled as an array and an offset. Copying from an overlapping region of the packet's own buffer is excluded.
- `FixedPacket::buffer()` is the `buffer` field itself.
- SendPolicy.EnqueuePreserves: it needs a bound of at least one for `LIMITED_FIFO`, because no queue can hold a packet and meet a bound of zero.
- The message-bus name registry (`ObjManager::find_or_create`): `Bind` takes the pipe object instead of a name. The constructors that take a name are a construction followed by `Bind`.
- The copy and move constructors and the destructors of `Subscriber` and `Publisher`, and `operator bool`: these are C++ object-lifetime concerns.
- `pop_for` and `pop_until`, and with them the Timeout error: they need a clock. A blocking `pop` is one step that reports `Waiting` when it would block.
- `get_performance_stats`, `print_performance_stats` and the timestamps and latencies of `update_performance_stats`: these are floating point and clock readings. Only the ring index and the 64-bit message counter are modelled.
- Umt.Publisher.Push, Umt.Publisher.Reset, Umt.Broadcast and Umt.NotifyAll: the model requires the pipe to be consistent (distinct subscribers, each pointing back to the pipe); the two loops require only distinct subscribers. The code keeps this itself but does not check it.
- Timestamps, colours, message formatting (`fmt::format` and its `format_error` fallback) and file output in the logger. `vec_to_str` takes the element formatter as a parameter. `map_to_str`, `stream_to_str` and `eigen_to_str` are not part of this model.
- Logger.StringToMode: lower-casing is modelled for ASCII letters only, as `::tolower` does in the C locale. Bytes outside ASCII are not modelled.
- Logger.LoggerConfig: `current_min_mode` is never assigned in the code, so it is a field that starts at `LOG` and no operation changes it.

## Findings

| source | as written | input that shows it | evidently intended | confidence | as-written member | corrected member |
|---|---|---|---|---|---|---|
| hardware/serial/fixed_packet.hpp:86 | the offset test computes `index + DataLen` in `size_t`, which wraps | `Capacity = 16`, `index = 2^64 - 2`, `DataLen = 4`: the sum wraps to 2, so the test passes and the copy targets memory outside the buffer, just before its start on a 64-bit target (same test at line 107) | accept only fields inside the payload, with the sum taken without wrap-around | not executed; high that the wrap exists, low that callers pass such offsets | Packet.AsWrittenAdmitsOutOfBounds | Packet.InPayloadIsPayloadWindow |
| hardware/serial/transceiver_manager.hpp:287-289 | `LIMITED_FIFO` pops whenever `size() >= max_queue_size` | `max_queue_size = 0`, empty queue, background sender on, one `send_packet`: `pop()` on an empty `std::queue`, which is undefined behaviour | drop the oldest packet only when there is one | not executed; high | SendPolicy.AsWrittenPopsEmptyQueue | SendPolicy.LimitedZeroKeepsLatest |
| plugin/debug/logger.hpp:190-191 | a message that passes the filter looks up `PRINT_PREFIX.at(mode)`, which has no `SILENT` entry | `print("warn", "node", "x")` with the default settings: "warn" maps to `SILENT`, `SILENT >= LOG` passes the filter, and `at` throws `std::out_of_range` | never print a `SILENT` message | not executed; high | Logger.UnknownModeThrows | Logger.PrintNeverThrows |
