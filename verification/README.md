# A verified model of a minimal NTP client

This project models the core of `my_ntpdate_command`, a small NTP client
written in C. The client sends eight NTP client requests to one server. For
each reply it computes the clock offset and the round-trip delay. It then
keeps the result with the smallest delay.

The model covers six parts, each a Dafny module:

- `CInt` (`c_int.dfy`): the C integer semantics the client relies on. This
  means division and remainder that truncate toward zero, the `int64_t`
  range, the cast of a 64-bit unsigned pattern to `time_t`, and the
  `(uint32_t)` cast.
- `NtpHeader` (`ntp_header.dfy`): the `NTP_SET_*` / `NTP_GET_*` macros on the
  LI/VN/Mode byte (RFC 5905 section 7.3).
- `NtpTime` (`ntp_time.dfy`): `ntp_from_timespec`, `timespec_from_ntp`,
  `ts_to_ns` and `ns_to_ts`. These convert between POSIX time and the NTP
  32.32 timestamp (RFC 5905 section 6), and normalise nanosecond counts.
- `NtpPacket` (`ntp_packet.dfy`): the 48-byte `ntp_packet_t` as explicit
  big-endian bytes at fixed offsets. The source's packed struct overlay and
  its `htonl`/`ntohl` calls become `Serialize` and `Parse`.
- `NtpExchange` (`ntp_exchange.dfy`): `ntp_request`. It covers the request
  buffer built in place, the reply-size check, T1..T3 from the reply, T4 from
  the local clock, and the offset and delay formulas (RFC 5905 section 8).
  It also covers the normalisation of both results and the write to `result`
  on success only.
- `Session` (`session.dfy`): `main`'s fill loop, which records a failure as
  an all-zero sentinel record, and its minimum-delay selection loop.

The pure parts of the source become functions and lemmas. `ns_to_ts`, which
writes through out-parameters and corrects them conditionally, becomes a
method. So does the request buffer, which is zeroed and filled field by field
in an `array`. `ntp_request` writes the caller's record only on success. The
two loops of `main` over the `results` array are methods with loop
invariants. Each method is proved against a specification function:

- `NsToTs` against `Normalize`
- `BuildRequest` against `RequestBytes`, which `RequestLayout` shows is
  `Serialize(ClientRequest(...))`
- `ComputeOffsetDelay`, `ReceiveReply` and `NtpRequest` against `Measure`
- `FillResults` against `Expected`
- `SelectBest` against the declarative `IsSelection`, the earliest considered
  entry of least delay, which `SelectionUnique` shows is unique

Clock readings and the transport are parameters. `sendTime` is the
`clock_gettime` before sending and `receiveTime` is T4. A `Reception` is
either a transport failure or the whole datagram `recvfrom` was given.
`ReceivedSize` and `ReplyBytes` apply the truncation to the 48-byte receive
buffer.

## Model

| member | source | states |
|---|---|---|
| CInt.TruncDiv | ntp.c:276 | C's `/` by a positive divisor: the quotient lies between the exact quotient and zero, within one divisor |
| CInt.TruncRem | ntp.c:145-146 | C's `%`: dividend = quotient·divisor + remainder, and the remainder has the dividend's sign and is smaller than the divisor |
| CInt.Int64OfBits | ntp.c:135 | the `(time_t)` cast of a 64-bit unsigned value: the result is in int64 range and congruent to the value modulo 2^64 |
| CInt.Int64OfBitsIdentity | ntp.c:135 | a value already in int64 range survives the unsigned round trip and the cast |
| CInt.Uint32Of | ntp.c:245-246 | the `(uint32_t)` cast of a value below 2^32 gives a 32-bit word denoting the same number |
| NtpHeader.GetLi | ntp.c:51 | the leap indicator read from the byte is below 4 |
| NtpHeader.GetVn | ntp.c:52 | the version read from the byte is below 8 |
| NtpHeader.GetMode | ntp.c:53 | the mode read from the byte is below 8 |
| NtpHeader.SetLi | ntp.c:47 | getting LI after setting it returns the value masked to 2 bits; VN and Mode are unchanged |
| NtpHeader.SetVn | ntp.c:48 | getting VN after setting it returns the value masked to 3 bits; LI and Mode are unchanged |
| NtpHeader.SetMode | ntp.c:49 | getting Mode after setting it returns the value masked to 3 bits; LI and VN are unchanged |
| NtpHeader.MasksPartitionByte | ntp.c:43-45 | the masks 0xC0, 0x38, 0x07 are pairwise disjoint and together cover the byte |
| NtpHeader.FieldsDetermineByte | ntp.c:43-53 | two bytes with equal LI, VN and Mode are equal |
| NtpHeader.SettersCommute | ntp.c:47-49 | the three setters commute pairwise, so their order does not matter |
| NtpHeader.SetAllOverwrites | ntp.c:47-49 | setting all three fields gives the same byte whatever the byte held before |
| NtpHeader.ClientRequestHeader | ntp.c:237-239 | LI 0, VN 4, Mode 3 on a zeroed byte is 0x23 |
| NtpTime.NtpFromTimespec | ntp.c:127-131 | for a time in NTP era 0: the upper 32 bits are tv_sec + 2,208,988,800 and the lower 32 bits are floor(tv_nsec·2^32/10^9) |
| NtpTime.FractionFitsLowHalf | ntp.c:129-130 | a nanosecond count below 10^9 scales to a fraction below 2^32, so the `or` does not disturb the seconds |
| NtpTime.SplitTimestamp | ntp.c:245-246 | the two 32-bit halves `tx_ts >> 32` and `tx_ts & 0xFFFFFFFF` recombine to the 64-bit value |
| NtpTime.TimespecFromNtp | ntp.c:133-138 | tv_sec = seconds − 2,208,988,800, and tv_nsec = floor(fraction·10^9/2^32), which always lies in [0, 10^9) |
| NtpTime.TimestampRoundTrip | ntp.c:127-138 | POSIX → NTP → POSIX keeps the seconds and returns tv_nsec or tv_nsec − 1 |
| NtpTime.UnixEpochInNtp | ntp.c:127-131 | the POSIX epoch converts to 0x83AA7E80_00000000: NTP second 2,208,988,800 with a zero fraction |
| NtpTime.TsToNs | ntp.c:140-142 | for a normalised pair, the nanosecond count lies in [sec·10^9, (sec+1)·10^9) |
| NtpTime.NtpEraFitsInt64 | ntp.c:140-142 | every time in NTP era 0 converts to a nanosecond count without int64 overflow |
| NtpTime.Normalize | ntp.c:144-151 | the reference meaning of `ns_to_ts`: a normalised pair with sec·10^9 + nsec = ns |
| NtpTime.NormalizedUnique | ntp.c:144-151 | two normalised pairs denoting the same count are equal |
| NtpTime.NormalizeInvertsTsToNs | ntp.c:140-151 | `ns_to_ts` inverts `ts_to_ns` on normalised pairs |
| NtpTime.NormalizeNegative | ntp.c:144-151 | −1,500,000,000 ns normalises to (−2 s, 500,000,000 ns) |
| NtpTime.NsToTs | ntp.c:144-151 | truncating `/` and `%` followed by the correction step give nsec in [0, 10^9), sec·10^9 + nsec = ns, and exactly `Normalize(ns)` |
| NtpPacket.ReadWordBytes | ntp.c:245-246 | `ntohl` inverts `htonl` on a 32-bit word |
| NtpPacket.WordBytesRead | ntp.c:245-246 | `htonl` of the word read from four bytes gives those bytes back |
| NtpPacket.ReadWordsWords | ntp.c:86-114 | reading back a sequence of serialised words returns the words |
| NtpPacket.WordsReadWords | ntp.c:86-114 | re-serialising the words read from a buffer returns the buffer |
| NtpPacket.ReadWordsAt | ntp.c:86-114 | word k of a buffer is the big-endian word at byte offset 4k |
| NtpPacket.WordsOfZeros | ntp.c:232 | zero words serialise to zero bytes |
| NtpPacket.Serialize | ntp.c:86-114 | the packet occupies exactly 48 bytes |
| NtpPacket.Parse | ntp.c:264-266 | the `recv_packet` overlay with `ntohl`: each field of the 48-byte buffer is read from its RFC 5905 offset, bytes 0-3, then big-endian words at 4, 8, 12 and timestamps at 16, 24, 32, 40 |
| NtpPacket.ParseSerialize | ntp.c:86-114 | parsing a serialised packet returns the packet |
| NtpPacket.SerializeParse | ntp.c:86-114 | serialising a parsed 48-byte buffer returns the buffer |
| NtpExchange.ReceivedSize | ntp.c:249-257 | the transfer size is −1 exactly on transport failure, and never more than the 48-byte buffer |
| NtpExchange.Accepted | ntp.c:250-257 | a reply gets past both checks exactly when the transfer size is the full 48 bytes: neither −1 nor short |
| NtpExchange.TransmitStamp | ntp.c:244-246 | the transmit timestamp's seconds are tv_sec + 2,208,988,800 and its fraction is floor(tv_nsec·2^32/10^9) |
| NtpExchange.ClientRequest | ntp.c:237-246 | the request has LI 0, VN 4, Mode 3 and carries the given transmit timestamp |
| NtpExchange.RequestLayout | ntp.c:232-246 | the serialised client request is exactly the request bytes |
| NtpExchange.RequestBytesLayout | ntp.c:232-246 | the request bytes are 0x23, then 39 zero bytes, then the big-endian transmit seconds and fraction |
| NtpExchange.LayoutIsRequestBytes | ntp.c:232-246 | conversely, any 48 bytes with that layout are the request bytes |
| NtpExchange.StoreWord | ntp.c:245-246 | the `htonl` store writes the word's four big-endian bytes and no other byte |
| NtpExchange.BuildRequest | ntp.c:232-246 | the buffer zeroed, given its header set in place and given the transmit timestamp is the request bytes for the send time |
| NtpExchange.Instant | ntp.c:264-274 | a wire timestamp denotes a nanosecond count within NTP era 0 |
| NtpExchange.InstantClosedForm | ntp.c:133-142 | `timespec_from_ntp` followed by `ts_to_ns` is (seconds − 2,208,988,800)·10^9 + floor(fraction·10^9/2^32) |
| NtpExchange.Offset | ntp.c:276 | the offset is half the sum, rounded toward zero: twice the offset is within one of the sum, on the sum's side of zero |
| NtpExchange.Delay | ntp.c:277 | the delay is the outbound leg T2 − T1 plus the return leg T4 − T3, so it is non-negative when neither leg is negative |
| NtpExchange.FormulasFitInt64 | ntp.c:271-277 | for instants in NTP era 0, no intermediate of either formula overflows int64 |
| NtpExchange.SymmetricPathRecoversClockError | ntp.c:276-277 | with equal one-way delays d and a server clock ahead by θ, the offset is θ and the delay is 2d, whatever the server's hold time |
| NtpExchange.OneSecondEachWay | ntp.c:276-277 | T1 = 0, T2 = T3 = 1 s, T4 = 2 s give offset 0 and delay 2 s |
| NtpExchange.OffsetTruncatesTowardZero | ntp.c:276 | a sum of −3 ns halves to −1 ns, not −2 ns |
| NtpExchange.Measure | ntp.c:262-282 | for an accepted reply, both results are normalised and denote the offset and the delay of T1..T4, with T1, T2, T3 from the origin, receive and transmit fields |
| NtpExchange.MeasureFitsInt64 | ntp.c:279-282 | every stored record's seconds·10^9 and delay total fit int64 |
| NtpExchange.EchoedOriginIsSendTime | ntp.c:244-264 | when the server echoes the request's transmit timestamp as origin, T1 is the send time to within 1 ns |
| NtpExchange.ComputeOffsetDelay | ntp.c:262-282 | the 64-bit arithmetic of `ntp_request` computes exactly `Measure`, with normalised nanoseconds |
| NtpExchange.ReceiveReply | ntp.c:249-282 | the status is 0 exactly when the reply is accepted and −1 otherwise; on success `results[i]` is `Measure` of the parsed reply; on failure it is untouched; no other slot changes |
| NtpExchange.NtpRequest | ntp.c:228-303 | the request built is the serialised client request; the status is 0 exactly when the reply is accepted and −1 otherwise; on success `results[i]` is `Measure` of the parsed reply; on failure it is untouched; no other slot changes |
| Session.DelayTotal | main.c:77-78 | on a normalised record the total normalises back to the record's delay fields: it is the delay as one nanosecond count |
| Session.IsZeroDelay | main.c:74 | both fields zero imply a zero total, and on a normalised record a zero total implies both fields zero |
| Session.SelectionUnique | main.c:71-83 | at most one index satisfies the selection specification |
| Session.SelectBest | main.c:71-83 | the scan returns an index in range, never a zero-delay entry after index 0, and exactly the earliest considered entry of least delay, so ties keep the earliest |
| Session.RunAttempt | main.c:58-68 | a failed attempt leaves the all-zero record in slot i and an accepted one `Measure` of its reply; no other slot changes; the request built is reported |
| Session.FillResults | main.c:55-69 | after the fill loop, every slot holds what its attempt left: the sentinel on failure, `Measure` of the reply on success (`Expected`) |
| Session.Synchronize | main.c:52-83 | eight attempts fill the results as `Expected` says; the returned index is the unique selection over them |
| Session.ExpectedFits | main.c:77-78 | every record an attempt can leave has a delay total that fits `int64_t` |
| Session.AllFailedSelectsSentinel | main.c:64-71 | when every attempt failed, index 0 holding the sentinel is selected, and no other index is |
| Session.SentinelFirstStaysSelected | main.c:71-81 | a sentinel at index 0 stays selected when no delay total is negative |
| Session.SelectionExample | main.c:73-83 | delays of 500 ms, sentinel, 100 ms and sentinel select index 2 and no other |

## Left out

- `udp_send_recv` and `get_sockaddr_info` (ntp.c:154-225) are not modelled. They cover sockets, name resolution, the receive timeout, `sendto` and `recvfrom`. What they deliver is the `Reception` parameter, and their return value is `ReceivedSize`.
- The two `clock_gettime` calls (ntp.c:243, ntp.c:263) are not modelled: the wall-clock readings are the `sendTime` and `receiveTime` parameters.
- `maybe_set_time` and `settimeofday` (main.c:21-39) are a system-wide side effect, and are not modelled.
- `ntp_print_packet`, `ntp_print_raw_packet` (ntp.c:307-348), every `LOG*` call and log.h are diagnostics only, and are not modelled.
- Command-line handling and the exit status (main.c:43-48, main.c:88) are not modelled.
- The zeroing of `recv_buf` (ntp.c:233) is not modelled. A reply shorter than 48 bytes is rejected, so those zeros are never read.
- `ntp_request`'s `result` pointer is modelled as the `results` array and an index, since `main` passes `&results[i]`.
- `main`'s uninitialised `results` array starts out as sentinels in the model. `FillResults` proves that every slot is overwritten before it is read, so the initial contents do not matter.
- NtpTime.NtpFromTimespec: requires a send time in NTP era 0 (1900 to the 2036 rollover). Outside it, the source's `sec << 32` silently drops the upper bits, and the model does not follow that wrap-around.
- NtpTime.TsToNs: requires the product and the sum to fit `int64_t`; the source would overflow, which C leaves undefined. Every time in NTP era 0 meets this requirement (NtpTime.NtpEraFitsInt64).
- NtpExchange.NtpRequest: requires both clock readings to lie in NTP era 0, so that every 64-bit intermediate stays in range. This is proved (NtpExchange.FormulasFitInt64).
- Session.SelectBest: requires every delay total to fit `int64_t`, since signed overflow is undefined in C. Session.ExpectedFits proves this for every record the fill loop can leave.
- NtpHeader.SetLi, NtpHeader.SetVn, NtpHeader.SetMode take the new value as a byte. The source takes an `int`, but masks it to 2 or 3 bits before use, so no other bit can matter.
- The signedness of `poll`, `precision` and `root_delay` is not modelled. The fields are kept as the raw bits the wire carries, because the client only prints them.
- The `sent` results of NtpExchange.NtpRequest, Session.RunAttempt, Session.FillResults and Session.Synchronize are the request bytes that were built, not a record of what reached the wire. On a transport failure the source may return −1 before `sendto` runs, for example when the socket cannot be created (ntp.c:181) or the name does not resolve (ntp.c:192).
