# A verified model of the packet core of `server_mytime.py`

`server_mytime.py` is a small NTP server that answers every client with the
system clock shifted by an operator-chosen offset in minutes. This project
models its packet core in Dafny:

- the fixed-point helpers `_to_int`, `_to_frac` and `_to_time`;
- the conversion `system_to_ntp_time` and the epoch distance `NTP.NTP_DELTA`;
- the `NTPPacket` class, whose methods update its fields in place:
  - its constructor;
  - `to_data`, with the struct format `"!B B B b 11I"`;
  - `from_data`;
  - `GetTxTimeStamp` and `SetOriginTimeStamp`;
- the reply that the work thread builds for each request it takes from its queue.

Modules:

- `Wrappers` holds `Option` and `Result`.
- `PyInt` holds Python's `<<`, `>>` and `|` on unbounded integers, negative ones included.
- `FixedPoint` holds the three fixed-point helpers, on exact reals.
- `Struct` holds `struct.pack`, `struct.unpack` and `struct.calcsize` for the codes `B`, `b` and `I` in network byte order.
- `TimeSource` holds `NTP_DELTA` and `system_to_ntp_time`.
- `Packet` holds the `NTPPacket` class, with its packing and unpacking laws.
- `Responder` holds the reply the work thread sends.

`NTPPacket` is a class. `FromData`, `SetOriginTimeStamp` and the construction of the reply assign its fields. `ToData` is a function of the fields. Each exception is modelled as an error value:

- `to_data` raises `NTPException("Invalid NTP packet fields.")`; the model returns `Err(InvalidPacketFields)`.
- `from_data` raises `NTPException("Invalid NTP packet.")`; the model returns `Err(InvalidPacket)`.

The proved laws:

- **Packing succeeds exactly when every field fits its wire width.** A timestamp fits when it lies in (-1, 2^32). A 16.16 value fits when it lies in (-1, 2^16).
- **Unpacking depends only on length.** It succeeds exactly on 48 bytes or more and ignores the bytes after the 48th.
- **What unpacks packs back, on exact reals.** Packing what was unpacked gives back the same 48 bytes when the timestamps are exact reals. With doubles, only the 16.16 words and the raw origin words are sure to come back (see "## Left out").
- **What packs unpacks back, up to truncation.** Unpacking a packed packet gives back its integer fields and origin words. Its timestamps come back truncated to 32 fraction bits, and its root delay and dispersion to 16 fraction bits (`Packet.NTPPacket.FromDataAfterToData`).
- **The origin words go through untouched.** The origin timestamp is written from the two raw words given to `SetOriginTimeStamp`, so a client's transmit timestamp comes back bit for bit.
- **The reply's layout is fixed.** Byte 0 is `0x1C`, the stratum is 2, the poll is 10, and the reference time is five seconds before the receive time.

Where the code and its usual description differ, the model follows the code:

- **`_to_int` truncates toward zero.** Python's `int()` rounds toward zero, not down, so a timestamp in (-1, 0) has integral part 0.
- **`_to_frac` loses the sign below zero.** It takes the absolute value of the fraction, so a timestamp in (-1, 0) packs like its absolute value (`FixedPoint.SignLostBelowZero`).
- **`poll` is unsigned.** `poll` is packed and unpacked with the unsigned code `B`, not as a signed exponent.
- **A bad request ends the thread.** A request shorter than 48 bytes makes `from_data` raise. The work thread catches only `queue.Empty`, so the exception ends the thread and no reply is sent. `BuildResponse` returns that exception as `Err(InvalidPacket)` rather than skipping the request.
- **A version of 8 or more spills into `leap`.** `version << 3` is not masked, so versions 8 to 31 still pack, but their high bits land in the leap bits: version 8 reads back as leap 1, version 0 (`Packet.NTPPacket.VersionOverflow`).
- **A timestamp in (-1, 0) reads back as its magnitude.** It packs like its absolute value, so it is read back as positive (`FixedPoint.MagnitudeAfterSplit`).
- **Packing fails after NTP era 0.** A clock reading at or after 2036-02-07 06:28:16 UTC (less the offset) gives an NTP time of at least 2^32, and `to_data` then raises (`TimeSource.EraZeroEnd`, `Responder.EraZeroReplyFails`, `Responder.BuildResponse`).

## Model

| member | source | states |
|---|---|---|
| PyInt.Shr | server_mytime.py:274-276 | `x >> k` is the floor of `x / 2^k` |
| PyInt.OrShiftAdd | server_mytime.py:237-243 | `a << k` or-ed with `b` is `a * 2^k + b` when `0 <= b < 2^k` |
| PyInt.OrNegative | server_mytime.py:237-243 | an or is negative exactly when one operand is negative, so a negative field makes its packed value negative |
| PyInt.OrAtLeast | server_mytime.py:237 | an or of non-negative operands is at least each operand |
| PyInt.OrBelow | server_mytime.py:237 | an or of two values below `2^k` stays below `2^k` |
| FixedPoint.ToInt | server_mytime.py:85-94 | `_to_int` truncates toward zero: for `t >= 0` the result is the floor, for `t < 0` the ceiling |
| FixedPoint.ToFrac | server_mytime.py:96-106 | `_to_frac(t, n)` lies in `[0, 2^n)` for every `t` |
| FixedPoint.ToTime | server_mytime.py:108-119 | `_to_time(i, f, n)` lies in `[i, i + 1)` when the fraction `f` fits in `n` bits |
| FixedPoint.FractionBelowOne | server_mytime.py:108-119 | a fraction `f` inside `n` bits stands for a value in `[0, 1)` |
| FixedPoint.SplitAfterBuild | server_mytime.py:85-119 | `_to_int` and `_to_frac` of `_to_time(i, f, n)` give back `i` and `f` for `i >= 0` and `0 <= f < 2^n` |
| FixedPoint.BuildAfterSplit | server_mytime.py:85-119 | `_to_time` of the parts of a non-negative `t` lies in `(t - 2^-n, t]` |
| FixedPoint.IntPartFits | server_mytime.py:85-94 | `0 <= _to_int(t) < m` exactly when `-1 < t < m` |
| FixedPoint.SignLostBelowZero | server_mytime.py:96-106 | for `-1 < t < 0`, `t` and `-t` have the same integral part (0) and the same fraction |
| FixedPoint.MagnitudeAfterSplit | server_mytime.py:85-119 | for `t > -1`, `_to_time` of the parts of `t` lies in `(abs(t) - 2^-n, abs(t)]`: a value in (-1, 0) comes back as its magnitude |
| Struct.DecodeAfterEncode | server_mytime.py:236-256 | decoding the bytes of a value that fits its code gives the value back |
| Struct.EncodeAfterDecode | server_mytime.py:269-270 | encoding a decoded value gives back its bytes |
| Struct.Pack | server_mytime.py:236-256 | `struct.pack` succeeds exactly when every value fits its code, and then yields `calcsize` bytes |
| Struct.Unpack | server_mytime.py:269-272 | `struct.unpack` succeeds exactly on `calcsize` bytes, and yields one in-range value per code |
| Struct.PackAt | server_mytime.py:236-256 | the i-th value of a successful pack is encoded at its offset |
| Struct.UnpackAt | server_mytime.py:269-270 | the i-th unpacked value is decoded from its offset |
| Struct.UnpackAfterPack | server_mytime.py:236-270 | unpacking a packed buffer gives back the values |
| Struct.PackAfterUnpack | server_mytime.py:236-270 | packing unpacked values gives back the buffer |
| TimeSource.NtpDeltaValue | server_mytime.py:128-135 | `NTP_DELTA` counts 70 years with 17 leap days from 1900-01-01 to 1970-01-01: 2208988800 seconds, a whole number of days |
| TimeSource.SystemToNtpTime | server_mytime.py:73-83 | the NTP time is the clock reading, less the offset in seconds (60 per minute), plus 2208988800 |
| TimeSource.OffsetShift | server_mytime.py:62-83 | `m` more minutes of offset move the NTP time `60 * m` seconds back |
| TimeSource.HourOffset | server_mytime.py:62-83 | an offset of 60 more minutes lowers the NTP time by exactly 3600 seconds |
| TimeSource.EraZeroEnd | server_mytime.py:73-83 | with no offset, the clock reading 2085978496 (2036-02-07 06:28:16 UTC) maps to NTP time exactly 2^32 |
| Packet.FormatSize | server_mytime.py:184 | `calcsize("!B B B b 11I")` is 48 |
| Packet.ByteZeroFits | server_mytime.py:237 | `leap << 6`, `version << 3` and `mode` or-ed together pack as `B` exactly when `0 <= leap < 4`, `0 <= version < 32` and `0 <= mode < 256` |
| Packet.ByteZeroSign | server_mytime.py:237 | byte 0 is negative exactly when leap, version or mode is negative |
| Packet.ByteZeroBelow | server_mytime.py:237 | for fields that are not negative, byte 0 is below 256 exactly when `leap < 4`, `version < 32` and `mode < 256` |
| Packet.ByteZeroOfFields | server_mytime.py:237 | with leap, version and mode inside 2, 3 and 3 bits, byte 0 is `64 * leap + 8 * version + mode` |
| Packet.ByteZeroSplit | server_mytime.py:274-276 | splitting any byte into leap, version and mode and joining them gives the byte back |
| Packet.ByteFields | server_mytime.py:274-276 | `b >> 6 & 0x3`, `b >> 3 & 0x7` and `b & 0x7` lie in 2, 3 and 3 bits and recombine to `b` |
| Packet.ByteZeroDecode | server_mytime.py:274-276 | byte 0 packed from leap, version and mode inside 2, 3 and 3 bits reads back as the same three fields |
| Packet.FieldsOfByte | server_mytime.py:274-276 | `64 * l + 8 * v + m` with `l`, `v`, `m` inside 2, 3 and 3 bits splits back into `l`, `v` and `m` |
| Packet.ByteZeroWideVersion | server_mytime.py:237 | with leap 0, a version below 32 and a mode below 8, byte 0 is `8 * version + mode`, the version bits reaching into the leap bits |
| Packet.ShortWordValue | server_mytime.py:241-243 | the 16.16 word is `_to_int(x) * 2^16 + _to_frac(x, 16)` |
| Packet.ShortWordFits | server_mytime.py:241-243 | the 16.16 word packs as `I` exactly when `-1 < x < 2^16` |
| Packet.ShortWordAfterRead | server_mytime.py:280-281 | a word read as `w / 2^16` packs back into `w` |
| Packet.ShortWordReread | server_mytime.py:241-281 | a root delay or dispersion in (-1, 2^16), packed and read back as `w / 2^16`, is its magnitude truncated to 16 fraction bits |
| Packet.TimestampAfterRead | server_mytime.py:283-288 | a timestamp read from two words splits back into the same two words |
| Packet.NTPPacket.constructor | server_mytime.py:187-224 | the given version, mode and transmit time; every other field zero |
| Packet.NTPPacket.ToData | server_mytime.py:226-256 | `to_data` succeeds exactly when every field fits its wire width (`Encodable`), yields 48 bytes, and fails with `InvalidPacketFields` otherwise |
| Packet.NTPPacket.EncodableIff | server_mytime.py:236-256 | the fifteen packed values fit `"!B B B b 11I"` exactly when the fields are `Encodable` |
| Packet.NTPPacket.ToDataHeader | server_mytime.py:236-243 | bytes 0-15 are byte 0, stratum, poll, two's-complement precision, the 16.16 root delay and dispersion words and the reference id |
| Packet.NTPPacket.ToDataOrigin | server_mytime.py:247-249 | bytes 24-31 are the two raw origin words, whatever the decoded origin timestamp holds |
| Packet.NTPPacket.ToDataTimestamps | server_mytime.py:244-253 | bytes 16-23, 32-39 and 40-47 are the 32.32 reference, receive and transmit timestamps |
| Packet.NTPPacket.FromData | server_mytime.py:258-290 | fails with `InvalidPacket` and changes nothing exactly when the payload is shorter than 48 bytes; otherwise assigns every field from the unpacked first 48 bytes |
| Packet.NTPPacket.LoadHeader | server_mytime.py:274-282 | leap, version, mode, stratum, poll, precision, root delay and dispersion (`/ 2^16`) and reference id from the unpacked values |
| Packet.NTPPacket.LoadTimestamps | server_mytime.py:283-290 | the four timestamps via `_to_time`, plus the raw origin and transmit words |
| Packet.NTPPacket.FromDataFields | server_mytime.py:258-290 | after `from_data`, each field is what its bytes say: leap, version and mode are bits 7-6, 5-3 and 2-0 of byte 0, precision is byte 3 signed, and the words sit at their offsets |
| Packet.NTPPacket.ToDataAfterFromData | server_mytime.py:226-290 | on exact reals, a packet loaded by `from_data` is packable, and `to_data` gives back exactly the 48 bytes it read |
| Packet.NTPPacket.RepackValues | server_mytime.py:236-270 | unpacking the bytes of a packable packet gives back the fifteen values `to_data` packed |
| Packet.NTPPacket.FromDataAfterToData | server_mytime.py:226-290 | with version and mode below 8, `from_data` of the bytes `to_data` wrote gives back leap, version, mode, stratum, poll, precision, reference id and the origin words; the transmit words are the parts of the transmit time; the three timestamps come back truncated to 32 fraction bits and root delay and dispersion to 16 |
| Packet.NTPPacket.VersionOverflow | server_mytime.py:237-276 | with leap 0, a version of 8 or more and a mode below 8, `from_data` of the packed bytes reads leap `version / 8`, version `version % 8` and the same mode |
| Packet.NTPPacket.GetTxTimeStamp | server_mytime.py:292-293 | the raw transmit words stored by `from_data` |
| Packet.NTPPacket.SetOriginTimeStamp | server_mytime.py:295-297 | sets the two raw origin words and nothing else |
| Packet.PackOkIff | server_mytime.py:236-256 | packing with `"!B B B b 11I"` succeeds exactly when each of the fifteen values fits its code |
| Packet.PackedLayout | server_mytime.py:236-256 | the byte offsets of the fifteen packed values: four single bytes, then eleven big-endian words |
| Packet.UnpackedLayout | server_mytime.py:269-270 | 48 bytes always unpack; each value comes from its offset, byte 3 signed |
| Packet.RepackDecoded | server_mytime.py:237-290 | the values `to_data` computes from the fields `from_data` assigned are the unpacked values themselves |
| Responder.BuildResponse | server_mytime.py:336-346 | fails with `InvalidPacket` on a request shorter than 48 bytes; otherwise replies exactly when the reference, receive and transmit times fit (`InvalidPacketFields` when they do not), with byte 0 `0x1C`, stratum 2, poll 10, precision 0, zero root delay, dispersion and reference id, reference time receive time minus 5, the request's bytes 40-47 as origin, and the receive and offset-clock transmit times |
| Responder.NewReply | server_mytime.py:339-345 | the reply packet is a fresh `NTPPacket(version=3, mode=4)` with stratum 2, poll 10, the reference, receive and transmit times and the origin words set, and every other field (the decoded origin time and the raw transmit words included) zero |
| Responder.ReplyLayout | server_mytime.py:339-346 | a packet holding the reply fields packs exactly when its three timestamps fit, and then into the reply bytes |
| Responder.EraZeroReplyFails | server_mytime.py:336-346 | with no offset, the clock reading 2085978496 (2036-02-07 06:28:16 UTC) gives a transmit time that does not fit a timestamp, so no reply packs |
| Responder.ShortWordZero | server_mytime.py:241-243 | a zero root delay or dispersion packs as the zero word |
| Responder.EchoExample | server_mytime.py:336-346 | a request with transmit words `0x12345678`, `0x9ABCDEF0`, answered with a 60-minute offset, gets those eight bytes back as its origin and a transmit time 3600 s behind the clock |

## Left out

- **Threads and I/O.** The threads, the `select` loop, the socket, the request queue (`taskQueue`), the stop flag and `socket.sendto` are outside the model. `BuildResponse` covers one pass of the work thread's loop.
- **The clock.** `time.time()` is a parameter (`clock`), and so is the receive time the receiving thread queued.
- **The offset.** It is a parameter in minutes. The operator prompt `update_time_offset` and its parsing of input are outside the model.
- **The epoch.** `NTP._SYSTEM_EPOCH` comes from `time.gmtime(0)`; the model takes it as 1970, the epoch of every platform the script runs on.
- **Console code.** The Windows console code, `set_color`, `get_terminal_width`, `format_status_line` and the descriptive tables of `NTP` are outside the model.
- **Floating point.** Timestamps and the 16.16 values are exact reals, not IEEE doubles. For NTP times near 2^32, a double keeps only about 21 fraction bits, so the 32-bit fraction that `_to_frac` computes from it is coarser than in the model.
- Packet.NTPPacket.ToDataAfterFromData: holds on exact reals only. `_to_time` (server_mytime.py:119) rounds to a double, whose spacing below 2^32 is 2^-21, so with doubles `to_data` after `from_data` does not in general give back bytes 16-23, 32-39 and 40-47. The reference words (0xFFFFFFFF, 0xFFFFFFFF) load as 4294967296.0, and `to_data` then raises `NTPException` instead of packing. The 16.16 words and the raw origin words do come back exactly with doubles: a word below 2^32 divided by 2^16 is exact, and the origin words are integers.
- Packet.TimestampAfterRead: holds on exact reals only, for the same reason. With doubles, the words (0xFFFFFFFF, 0xFFFFFFFF) read as 4294967296.0, which splits into (4294967296, 0) and does not fit a word.
- **Non-integer fields.** `struct.pack` also fails on an integer field holding a float or another type. The model's integer fields are always integers.
- Packet.NTPPacket.LoadHeader, Packet.NTPPacket.LoadTimestamps: these two methods are not separate functions in the source. They split the assignments of `from_data` into its header part and its timestamp part.
