/** The 16-byte UUIDv7 identifier and its fields (section 5.7 of RFC 9562):
    bytes 0..5 hold the 48-bit Unix millisecond timestamp, big-endian;
    bytes 6..7 hold the version nibble and the 12-bit counter (rand_a);
    bytes 8..15 hold the variant bits and the 62-bit random tail (rand_b).

    Bytes are `uint8` and the clock reading is `uint64`, both as bounded
    integers. The generator's bit operations on a byte are written as the
    arithmetic they perform: `b >> 4` is `b / 16`, `b & 0x0f` is `b % 16`,
    `b & 0x3f` is `b % 64`, OR-ing a high constant into cleared bits is
    addition, and `x >> 8 * i` followed by the cast to `uint8_t` is
    `(x / 256^i) % 256`. `StampIsBitwise` checks the stamping against the
    machine's own 8-bit operations. */
module UuidLayout {

  type uint8 = x: int | 0 <= x < 0x100
  type uint64 = x: int | 0 <= x < 0x1_0000_0000_0000_0000

  const UUID_T_LENGTH: nat := 16
  const UNIX_TS_LENGTH: nat := 6
  const RAND_A_LENGTH: nat := 2
  const RAND_B_LENGTH: nat := 8

  /** 2^48: the timestamp field keeps a clock reading modulo this. */
  const TS_MODULUS: nat := 0x1_0000_0000_0000

  function Pow256(n: nat): (r: nat)
    ensures r >= 1
  {
    if n == 0 then 1 else 256 * Pow256(n - 1)
  }

  // ---------------------------------------------------------------------------
  // Big-endian byte strings
  // ---------------------------------------------------------------------------

  /** The bytes read as a big-endian unsigned integer. */
  function BigEndian(s: seq<uint8>): nat
  {
    if s == [] then 0 else BigEndian(s[..|s| - 1]) * 256 + s[|s| - 1] as int
  }

  lemma BigEndianSnoc(p: seq<uint8>, x: uint8)
    ensures BigEndian(p + [x]) == BigEndian(p) * 256 + x
  {
    assert (p + [x])[..|p|] == p;
  }

  lemma {:induction false} BigEndianBound(s: seq<uint8>)
    ensures BigEndian(s) < Pow256(|s|)
  {
    if s != [] {
      BigEndianBound(s[..|s| - 1]);
    }
  }

  /** Byte strings of one length with the same value are the same bytes. */
  lemma {:induction false} BigEndianInjective(x: seq<uint8>, y: seq<uint8>)
    requires |x| == |y| && BigEndian(x) == BigEndian(y)
    ensures x == y
  {
    if x != [] {
      var n := |x| - 1;
      BigEndianInjective(x[..n], y[..n]);
      assert x == x[..n] + [x[n]] && y == y[..n] + [y[n]];
    }
  }

  /** A smaller value has a first differing byte that is smaller. */
  lemma {:induction false} FirstDifference(x: seq<uint8>, y: seq<uint8>) returns (k: nat)
    requires |x| == |y| && BigEndian(x) < BigEndian(y)
    ensures k < |x| && x[..k] == y[..k] && x[k] < y[k]
  {
    var n := |x| - 1;
    var px, py := x[..n], y[..n];
    if BigEndian(px) < BigEndian(py) {
      k := FirstDifference(px, py);
      assert x[..k] == px[..k] && y[..k] == py[..k];
    } else {
      BigEndianInjective(px, py);
      k := n;
    }
  }

  // ---------------------------------------------------------------------------
  // Byte-wise order (memcmp order)
  // ---------------------------------------------------------------------------

  /** `a` sorts strictly before `b` when compared byte by byte. */
  predicate ByteLess(a: seq<uint8>, b: seq<uint8>)
    requires |a| == |b|
  {
    |a| > 0 && (a[0] < b[0] || (a[0] == b[0] && ByteLess(a[1..], b[1..])))
  }

  /** The first difference decides the order. */
  lemma {:induction false} LessAt(a: seq<uint8>, b: seq<uint8>, k: nat)
    requires |a| == |b| && k < |a|
    requires a[..k] == b[..k] && a[k] < b[k]
    ensures ByteLess(a, b)
  {
    if k > 0 {
      assert a[0] == a[..k][0] == b[..k][0] == b[0];
      assert a[1..][..k - 1] == a[1..k] == a[..k][1..];
      assert b[1..][..k - 1] == b[1..k] == b[..k][1..];
      LessAt(a[1..], b[1..], k - 1);
    }
  }

  /** Conversely, a byte-wise smaller string has a first differing byte. */
  lemma {:induction false} PrefixLess(a: seq<uint8>, b: seq<uint8>) returns (k: nat)
    requires |a| == |b| && ByteLess(a, b)
    ensures k < |a| && a[..k] == b[..k] && a[k] < b[k]
  {
    if a[0] < b[0] {
      k := 0;
    } else {
      var j := PrefixLess(a[1..], b[1..]);
      k := j + 1;
      assert a[..k] == [a[0]] + a[1..][..j];
      assert b[..k] == [b[0]] + b[1..][..j];
    }
  }

  /** Byte-wise order agrees with numeric order for strings of one length. */
  lemma BigEndianOrder(x: seq<uint8>, y: seq<uint8>)
    requires |x| == |y| && BigEndian(x) < BigEndian(y)
    ensures ByteLess(x, y)
  {
    var k := FirstDifference(x, y);
    LessAt(x, y, k);
  }

  // ---------------------------------------------------------------------------
  // Timestamp field
  // ---------------------------------------------------------------------------

  /** `(uint8_t)(ts >> 8 * i)`: byte i of the clock value, counting from the
      least significant. */
  function ShiftByte(ts: uint64, i: nat): uint8
  {
    (ts / Pow256(i)) % 256
  }

  /** The six timestamp bytes, most significant first. */
  function TsBytes(ts: uint64): (r: seq<uint8>)
    ensures |r| == UNIX_TS_LENGTH
  {
    [ShiftByte(ts, 5), ShiftByte(ts, 4), ShiftByte(ts, 3), ShiftByte(ts, 2), ShiftByte(ts, 1), ShiftByte(ts, 0)]
  }

  lemma TsBytesAt(ts: uint64, k: nat)
    requires k < UNIX_TS_LENGTH
    ensures TsBytes(ts)[k] == ShiftByte(ts, UNIX_TS_LENGTH - 1 - k)
  {
  }

  lemma DivMod256(x: nat)
    ensures x == 256 * (x / 256) + x % 256
  {
  }

  lemma ModUnique48(x: nat, q: nat, r: nat)
    requires r < TS_MODULUS && x == TS_MODULUS * q + r
    ensures x % TS_MODULUS == r
  {
  }

  /** Six base-256 digits taken by repeated division reassemble the value
      modulo 2^48. */
  lemma Digits48(ts: nat, q1: nat, q2: nat, q3: nat, q4: nat, q5: nat)
    requires q1 == ts / 256 && q2 == q1 / 256 && q3 == q2 / 256 && q4 == q3 / 256 && q5 == q4 / 256
    ensures ((((q5 % 256 * 256 + q4 % 256) * 256 + q3 % 256) * 256 + q2 % 256) * 256 + q1 % 256) * 256
            + ts % 256 == ts % TS_MODULUS
  {
    DivMod256(ts);
    DivMod256(q1);
    DivMod256(q2);
    DivMod256(q3);
    DivMod256(q4);
    DivMod256(q5);
    var sum := ((((q5 % 256 * 256 + q4 % 256) * 256 + q3 % 256) * 256 + q2 % 256) * 256 + q1 % 256) * 256
               + ts % 256;
    assert ts == q5 / 256 * TS_MODULUS + sum;
    ModUnique48(ts, q5 / 256, sum);
  }

  lemma BigEndianSix(b: seq<uint8>)
    requires |b| == 6
    ensures BigEndian(b) == ((((b[0] as int * 256 + b[1]) * 256 + b[2]) * 256 + b[3]) * 256 + b[4]) * 256 + b[5]
  {
    var v1 := BigEndian(b[..1]);
    var v2 := BigEndian(b[..2]);
    var v3 := BigEndian(b[..3]);
    var v4 := BigEndian(b[..4]);
    var v5 := BigEndian(b[..5]);
    assert b[..1] == [] + [b[0]];
    assert b[..2] == b[..1] + [b[1]];
    assert b[..3] == b[..2] + [b[2]];
    assert b[..4] == b[..3] + [b[3]];
    assert b[..5] == b[..4] + [b[4]];
    assert b == b[..5] + [b[5]];
    BigEndianSnoc([], b[0]);
    BigEndianSnoc(b[..1], b[1]);
    BigEndianSnoc(b[..2], b[2]);
    BigEndianSnoc(b[..3], b[3]);
    BigEndianSnoc(b[..4], b[4]);
    BigEndianSnoc(b[..5], b[5]);
    assert v1 == b[0];
    assert v2 == v1 * 256 + b[1];
    assert v3 == v2 * 256 + b[2];
    assert v4 == v3 * 256 + b[3];
    assert v5 == v4 * 256 + b[4];
  }

  lemma Pow256Values()
    ensures Pow256(1) == 0x100 && Pow256(2) == 0x1_0000 && Pow256(3) == 0x100_0000
    ensures Pow256(4) == 0x1_0000_0000 && Pow256(5) == 0x100_0000_0000 && Pow256(6) == TS_MODULUS
  {
  }

  /** Dividing by 256^k is dividing by 256, k times. */
  lemma DivChain(ts: nat)
    ensures ts / 0x1_0000 == ts / 0x100 / 0x100
    ensures ts / 0x100_0000 == ts / 0x1_0000 / 0x100
    ensures ts / 0x1_0000_0000 == ts / 0x100_0000 / 0x100
    ensures ts / 0x100_0000_0000 == ts / 0x1_0000_0000 / 0x100
  {
  }

  /** Reading the timestamp field back gives the clock value modulo 2^48. */
  lemma TsBytesValue(ts: uint64)
    ensures BigEndian(TsBytes(ts)) == ts % TS_MODULUS
  {
    Pow256Values();
    DivChain(ts);
    BigEndianSix(TsBytes(ts));
    Digits48(ts, ts / 0x100, ts / 0x1_0000, ts / 0x100_0000, ts / 0x1_0000_0000, ts / 0x100_0000_0000);
  }

  /** Every six-byte field is the encoding of exactly the value it reads as. */
  lemma TsBytesOfValue(b: seq<uint8>)
    requires |b| == UNIX_TS_LENGTH
    ensures BigEndian(b) < TS_MODULUS
    ensures TsBytes(BigEndian(b)) == b
  {
    BigEndianBound(b);
    Pow256Values();
    TsBytesValue(BigEndian(b));
    ModBelow(BigEndian(b), TS_MODULUS);
    BigEndianInjective(TsBytes(BigEndian(b)), b);
  }

  /** A strictly later timestamp (below 2^48) has byte-wise larger bytes. */
  lemma TsBytesOrdered(t1: uint64, t2: uint64)
    requires t1 < t2 < TS_MODULUS
    ensures ByteLess(TsBytes(t1), TsBytes(t2))
  {
    TsBytesValue(t1);
    TsBytesValue(t2);
    ModBelow(t1, TS_MODULUS);
    ModBelow(t2, TS_MODULUS);
    BigEndianOrder(TsBytes(t1), TsBytes(t2));
  }

  // ---------------------------------------------------------------------------
  // The rand_a counter
  // ---------------------------------------------------------------------------

  /** `++b` on a `uint8_t`: 255 wraps to 0. */
  function Inc8(b: uint8): (r: uint8)
    ensures r == (b + 1) % 256
  {
    if b == 0xFF then 0 else b + 1
  }

  /** Add one to a big-endian byte string: bump the last byte and carry into
      the one before it only when the last byte wrapped to zero. */
  function Incremented(s: seq<uint8>): seq<uint8>
    decreases |s|
  {
    if s == [] then []
    else if Inc8(s[|s| - 1]) != 0 then s[..|s| - 1] + [Inc8(s[|s| - 1])]
    else Incremented(s[..|s| - 1]) + [0]
  }

  lemma {:induction false} IncrementedLength(s: seq<uint8>)
    ensures |Incremented(s)| == |s|
  {
    if s != [] && Inc8(s[|s| - 1]) == 0 {
      IncrementedLength(s[..|s| - 1]);
    }
  }

  /** Unfolding `Incremented` at its last byte. */
  lemma IncrementedSnoc(p: seq<uint8>, x: uint8)
    ensures Inc8(x) != 0 ==> Incremented(p + [x]) == p + [Inc8(x)]
    ensures Inc8(x) == 0 ==> Incremented(p + [x]) == Incremented(p) + [0]
  {
    assert (p + [x])[..|p|] == p;
  }

  lemma ModBelow(x: int, m: int)
    requires 0 <= x < m
    ensures x % m == x
  {
  }

  lemma ModSelf(m: int)
    requires 0 < m
    ensures m % m == 0
  {
  }

  /** The last byte does not overflow: the sum stays below the modulus. */
  lemma NoCarryArith(b: int, n: int, d: int)
    requires 0 <= b < n && 0 <= d < 256
    ensures (b * 256 + d) % (256 * n) == b * 256 + d
  {
    ModBelow(b * 256 + d, 256 * n);
  }

  /** The last byte overflows: the carry increments the prefix modulo its width. */
  lemma CarryArith(b: int, n: int, c: int)
    requires 0 <= b < n && c == (b + 1) % n
    ensures c * 256 == (b * 256 + 256) % (256 * n)
  {
    if b + 1 == n {
      ModSelf(n);
      ModSelf(256 * n);
    } else {
      ModBelow(b + 1, n);
      ModBelow(b * 256 + 256, 256 * n);
    }
  }

  /** Incrementing adds exactly one, modulo the width of the byte string. */
  lemma {:induction false} IncrementedValue(s: seq<uint8>)
    ensures |Incremented(s)| == |s|
    ensures BigEndian(Incremented(s)) == (BigEndian(s) + 1) % Pow256(|s|)
  {
    IncrementedLength(s);
    if s != [] {
      var p, last := s[..|s| - 1], s[|s| - 1];
      var r := Incremented(s);
      BigEndianBound(p);
      if Inc8(last) != 0 {
        assert r[..|r| - 1] == p;
        NoCarryArith(BigEndian(p), Pow256(|p|), last as int + 1);
      } else {
        IncrementedValue(p);
        assert r[..|r| - 1] == Incremented(p);
        CarryArith(BigEndian(p), Pow256(|p|), BigEndian(Incremented(p)));
      }
    }
  }

  /** A two-byte string read big-endian. */
  lemma BigEndianTwo(a: seq<uint8>)
    requires |a| == 2
    ensures BigEndian(a) == a[0] as int * 256 + a[1]
  {
    assert a == [] + [a[0]] + [a[1]];
    BigEndianSnoc([], a[0]);
    BigEndianSnoc([a[0]], a[1]);
  }

  /** For the two-byte rand_a: the carry goes only from byte 1 into byte 0. */
  lemma IncrementedTwo(a: seq<uint8>)
    requires |a| == RAND_A_LENGTH
    ensures Incremented(a) == if a[1] == 0xFF then [Inc8(a[0]), 0] else [a[0], a[1] + 1]
  {
    var p := a[..1];
    assert p == [a[0]] && p[..0] == [];
    if a[1] == 0xFF {
      assert Incremented(a) == Incremented(p) + [0];
      if a[0] == 0xFF {
        assert Incremented(p) == Incremented([]) + [0];
      }
    } else {
      assert Inc8(a[1]) == a[1] + 1 != 0;
      assert Incremented(a) == p + [Inc8(a[1])];
    }
  }

  // ---------------------------------------------------------------------------
  // Version and variant stamping
  // ---------------------------------------------------------------------------

  /** Overwrite the version nibble of byte 6 with 7 and the variant bits of
      byte 8 with `10`; every other bit is kept. */
  function Stamp(u: seq<uint8>): (r: seq<uint8>)
    requires |u| == UUID_T_LENGTH
    ensures |r| == UUID_T_LENGTH
    ensures r[6] / 16 == 7 && r[8] / 64 == 2
    ensures r[6] % 16 == u[6] % 16 && r[8] % 64 == u[8] % 64
    ensures forall i :: 0 <= i < UUID_T_LENGTH && i != 6 && i != 8 ==> r[i] == u[i]
  {
    u[6 := 0x70 + u[6] % 16][8 := 0x80 + u[8] % 64]
  }

  /** The stamping agrees with the 8-bit operations
      `0x70 | (b & 0x0f)` and `0x80 | (b & 0x3f)`, and the field reads
      `b >> 4` and `b >> 6` are the divisions used above. */
  lemma StampIsBitwise(b: bv8)
    ensures (0x70 | (b & 0x0f)) as int == 0x70 + b as int % 16
    ensures (0x80 | (b & 0x3f)) as int == 0x80 + b as int % 64
    ensures (b >> 4) as int == b as int / 16 && (b >> 6) as int == b as int / 64
    ensures (b & 0x0f) as int == b as int % 16 && (b & 0x3f) as int == b as int % 64
  {
  }

  /** The identifier built from a clock reading, the counter and the tail. */
  function Layout(ts: uint64, randA: seq<uint8>, randB: seq<uint8>): seq<uint8>
    requires |randA| == RAND_A_LENGTH && |randB| == RAND_B_LENGTH
  {
    Stamp(TsBytes(ts) + randA + randB)
  }

  /** The 12 counter bits visible in an identifier: the low nibble of byte 6
      followed by byte 7. */
  function Counter12(u: seq<uint8>): nat
    requires |u| == UUID_T_LENGTH
  {
    u[6] % 16 * 256 + u[7] as int
  }

  /** The bytes before stamping: timestamp, rand_a, rand_b in that order. */
  lemma {:induction false} ConcatFields(ts: uint64, randA: seq<uint8>, randB: seq<uint8>)
    requires |randA| == RAND_A_LENGTH && |randB| == RAND_B_LENGTH
    ensures var w := TsBytes(ts) + randA + randB;
      && |w| == UUID_T_LENGTH && w[..6] == TsBytes(ts)
      && w[6] == randA[0] && w[7] == randA[1] && w[8] == randB[0] && w[9..] == randB[1..]
  {
    var w := TsBytes(ts) + randA + randB;
    assert w[..6] == TsBytes(ts);
    assert w[9..] == randB[1..];
  }

  /** What each field of a laid-out identifier holds. */
  lemma LayoutFields(ts: uint64, randA: seq<uint8>, randB: seq<uint8>)
    requires |randA| == RAND_A_LENGTH && |randB| == RAND_B_LENGTH
    ensures var u := Layout(ts, randA, randB);
      && |u| == UUID_T_LENGTH
      && u[..UNIX_TS_LENGTH] == TsBytes(ts)
      && BigEndian(u[..UNIX_TS_LENGTH]) == ts % TS_MODULUS
      && u[6] / 16 == 7 && u[6] % 16 == randA[0] % 16 && u[7] == randA[1]
      && u[8] / 64 == 2 && u[8] % 64 == randB[0] % 64 && u[9..] == randB[1..]
      && Counter12(u) == BigEndian(randA) % 4096
  {
    var w := TsBytes(ts) + randA + randB;
    var u := Stamp(w);
    ConcatFields(ts, randA, randB);
    assert u[..6] == w[..6];
    assert u[9..] == w[9..];
    TsBytesValue(ts);
    BigEndianTwo(randA);
    CounterArith(randA[0], randA[1]);
  }

  lemma CounterArith(hi: uint8, lo: uint8)
    ensures hi % 16 * 256 + lo == (hi * 256 + lo) % 4096
  {
    var x := hi * 256 + lo;
    assert x == (hi / 16) * 4096 + (hi % 16 * 256 + lo);
    ModUnique4096(x, hi / 16, hi % 16 * 256 + lo);
  }

  lemma ModUnique4096(x: int, q: int, r: int)
    requires 0 <= r < 4096 && x == 4096 * q + r
    ensures x % 4096 == r
  {
  }
}
