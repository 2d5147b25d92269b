# UUIDv7 generator and text form, in Dafny

This project models the identifier engine of the MySQL `uuid_v7` component
(`uuid_v7.h`). The engine has two parts.

- `create_uuid7` fills a 16-byte identifier. It takes a millisecond clock
  reading and a process-wide record that holds the last reading, a two-byte
  counter (`rand_a`) and an eight-byte random tail (`rand_b`). It writes:
  - the 48-bit timestamp, big-endian, into bytes 0..5;
  - the counter into bytes 6..7. The counter is reseeded on a later
    millisecond. Otherwise it is incremented as a 16-bit big-endian number,
    with the carry running from the last byte to the first.
  - a fresh tail into bytes 8..15.

  It then records the reading and stamps the version nibble `7` and the
  variant bits `10`, following section 5.7 of RFC 9562.
- `uuid_to_string` renders the 16 bytes as 36 characters: lower-case hex in
  the 8-4-4-4-12 grouping with hyphens (section 4 of RFC 9562). It writes
  them into a NUL-terminated buffer through a running write index.

The project has three modules:

- `UuidLayout` (`uuid_layout.dfy`) covers the value-level layout:
  - big-endian reading of byte strings;
  - the timestamp field;
  - the counter increment with carry;
  - version/variant stamping;
  - the byte-wise (memcmp) order.
- `UuidGenerator` (`uuid_generator.dfy`) covers the generator, in two forms:
  - a pure state machine, `State` with its transition `Next`;
  - a `Generator` class with the source's fields (`lastTs`, and arrays
    `randA` and `randB`). Its `CreateUuid7` method keeps the source's loops:
    the timestamp loop, the carry loop that breaks early, and the two copy
    loops. The method is proved to leave exactly `Next`'s new record and
    identifier.
- `UuidString` (`uuid_string.dfy`) covers the text form:
  - `Canonical`, the RFC grouping written as a concatenation of five hex
    groups;
  - `UuidToString`, the buffer-filling loop, proved equal to `Canonical`;
  - lemmas on the shape of the text and on its injectivity.

The model uses bounded integers. Bytes are `uint8` (0..255) and the clock
reading is `uint64`. Each C bit operation is written as the arithmetic it
performs on a byte:
- `b >> 4` is `b / 16`, `b & 0x0f` is `b % 16` and `b & 0x3f` is `b % 64`;
- OR-ing `0x70` or `0x80` into cleared high bits is addition;
- `(uint8_t)(ts >> 8*i)` is `(ts / 256^i) % 256`.

`UuidLayout.StampIsBitwise` proves the byte equalities of the first two
points against real 8-bit vector operations. The 64-bit shift and cast of
the third point is taken as the definition of `ShiftByte`, with no
bit-vector proof. `++b` on a `uint8_t` is `Inc8`, which wraps 255 to 0.

## Model

| member | source | states |
|---|---|---|
| UuidLayout.TsBytesValue | uuid_v7.h:67-71 | the six timestamp bytes read back big-endian give the clock reading modulo 2^48 |
| UuidLayout.TsBytesOfValue | uuid_v7.h:67-71 | every six-byte field is the encoding of exactly one reading below 2^48, the value it reads as (round trip) |
| UuidLayout.TsBytesOrdered | uuid_v7.h:67-71 | a strictly later reading below 2^48 gives byte-wise larger timestamp bytes |
| UuidLayout.Inc8 | uuid_v7.h:79 | `++` on a byte is `(b + 1) mod 256` |
| UuidLayout.IncrementedValue | uuid_v7.h:76-83 | the carry increment adds exactly one to the big-endian value, modulo 256^length, and keeps the length |
| UuidLayout.IncrementedTwo | uuid_v7.h:76-83 | for the two-byte counter the carry goes from byte 1 into byte 0 only when byte 1 was 0xFF |
| UuidLayout.Stamp | uuid_v7.h:100-101 | byte 6 gets version 7 in its high nibble and byte 8 gets variant `10` in its top two bits; the low nibble of byte 6, the low six bits of byte 8 and every other byte are kept |
| UuidLayout.StampIsBitwise | uuid_v7.h:100-101 | the C expressions for version and variant stamping (OR of `0x70` with `b & 0x0f`, OR of `0x80` with `b & 0x3f`), the shifts `b >> 4` and `b >> 6`, and the masks equal the arithmetic the model uses, on every 8-bit value |
| UuidLayout.LayoutFields | uuid_v7.h:68-101 | in a laid-out identifier: bytes 0..5 are the timestamp bytes (reading as the clock modulo 2^48); version 7 and variant `10` are set; `uuid[6] & 0x0f == rand_a[0] & 0x0f` and `uuid[7] == rand_a[1]`; `uuid[8] & 0x3f == rand_b[0] & 0x3f` and `uuid[9..16] == rand_b[1..8]`; the visible 12-bit counter is the counter's value mod 4096 |
| UuidGenerator.NextRandA | uuid_v7.h:74-83 | on a later millisecond the counter becomes the fresh random bytes; otherwise its big-endian value goes up by exactly 1 mod 65536 |
| UuidGenerator.Next | uuid_v7.h:64-102 | one call: the record keeps the new reading (even if it went backwards), the counter as `NextRandA` gives it (reseeded or incremented), and the fresh tail; the identifier has the timestamp bytes, the version and variant, and the counter and tail bits listed for `LayoutFields` |
| UuidGenerator.Generator.Snapshot | uuid_v7.h:41-45 | the record's fields as a well-formed `State` (2 counter bytes, 8 tail bytes) |
| UuidGenerator.Generator.constructor | uuid_v7.h:41-45 | the static record starts all zero |
| UuidGenerator.Generator.CreateUuid7 | uuid_v7.h:64-102 | after the call the record is `Next`'s new state and the caller's array holds `Next`'s identifier |
| UuidGenerator.Generator.WriteTimestamp | uuid_v7.h:68-71 | the timestamp loop leaves bytes 0..5 equal to the timestamp bytes and no other byte changed |
| UuidGenerator.Generator.IncrementCounter | uuid_v7.h:76-83 | the right-to-left loop with early `break` leaves the counter equal to the carry increment of its old value |
| UuidGenerator.Generator.CopyInto | uuid_v7.h:84-87 | the copy loops place the source bytes at the given offset and leave the rest of the identifier unchanged (also lines 91-94) |
| UuidGenerator.Generator.Fill | uuid_v7.h:90 | the random source's bytes land in the record's buffer unchanged (also line 75) |
| UuidGenerator.SameMillisecond | uuid_v7.h:76-87 | two calls with one reading: equal bytes 0..5; the visible 12-bit counter goes up by 1 mod 4096; the second identifier sorts byte-wise after the first unless that field wrapped from 0xFFF, and then it sorts before, because the version stamp at line 100 overwrites the carry |
| UuidGenerator.LaterMillisecond | uuid_v7.h:67-75 | a later reading (below 2^48) reseeds the counter, and the new identifier sorts byte-wise after the previous one |
| UuidGenerator.ClockRegression | uuid_v7.h:74-97 | an earlier reading is still recorded (the stored value decreases), the counter is incremented by 1 mod 65536 rather than reseeded, and the identifier sorts before the previous one |
| UuidString.HexDigitIsTable | uuid_v7.h:106 | the digit function agrees with the `hex` table for every nibble |
| UuidString.CanonicalAt | uuid_v7.h:110-117 | byte i's high nibble digit (`hex[uuid[i] >> 4]`) and low nibble digit (`hex[uuid[i] & 0x0f]`) sit at consecutive positions `2i + hyphens so far`; a hyphen precedes bytes 4, 6, 8 and 10 |
| UuidString.RenderedIsCanonical | uuid_v7.h:108-118 | the text the loop writes, byte by byte with hyphens before bytes 4, 6, 8, 10, is the RFC 8-4-4-4-12 grouping of the hex digits |
| UuidString.CanonicalShape | uuid_v7.h:108-120 | the text is exactly 36 characters: `-` at 8, 13, 18 and 23, and a character of `0-9a-f` everywhere else |
| UuidString.CanonicalInjective | uuid_v7.h:110-117 | different identifiers have different texts |
| UuidString.GeneratedDigits | uuid_v7.h:100-101 | every generated identifier's text has `7` at index 14 and one of `89ab` at index 19 |
| UuidString.BeforeNul | uuid_v7.h:119-120 | `std::string out(str)` takes the characters before the first NUL |
| UuidString.UuidToString | uuid_v7.h:104-122 | the returned string equals `Canonical` of the identifier's bytes |

## Left out

- `uuid_v7.cc` (the MySQL UDF registration, charset negotiation, argument checks and component plumbing) is not part of this model.
- `get_milliseconds` (`clock_gettime`) is not modelled: its result is the `ts` parameter. Its arithmetic (`tv_sec * 1000 + tv_nsec / 1000000`) is left out.
- `get_random_bytes` (`getentropy`, then `exit` when `errno` is non-zero) is not modelled: its bytes are the `freshA`/`freshB` parameters. The failure exit is left out.
- `string_to_uuid`, `uuid_to_ts`, `uuid_to_ts_long` and `uuid_to_unixts` are called by `uuid_v7.cc`, but their definitions are not part of this model.
- ShiftByte: the identity between `(uint8_t)(ts >> 8*i)` on a 64-bit value and `(ts / 256^i) % 256` is taken as the definition of `ShiftByte` rather than proved over 64-bit vectors.
- Concurrency: the record is an unsynchronised process-wide global. The model has a single owner calling sequentially.
