/** The UUIDv7 generator: a process-wide record holding the last clock
    reading, the two counter bytes (rand_a) and the eight tail bytes
    (rand_b), and the call that turns one clock reading into one identifier.

    The clock and the random source are operating-system calls; they arrive
    here as parameters `ts`, `freshA` and `freshB`. */
module UuidGenerator {
  import opened UuidLayout

  // ---------------------------------------------------------------------------
  // The state machine on values
  // ---------------------------------------------------------------------------

  /** The generator record: last timestamp, counter bytes, tail bytes. */
  datatype State = State(lastTs: uint64, randA: seq<uint8>, randB: seq<uint8>)
  {
    predicate WellFormed()
    {
      |randA| == RAND_A_LENGTH && |randB| == RAND_B_LENGTH
    }
  }

  /** The record is static storage, so it starts out all zero. */
  const Initial: State := State(0, [0, 0], [0, 0, 0, 0, 0, 0, 0, 0])

  /** The new counter: reseeded on a later millisecond, otherwise bumped by
      one as a 16-bit big-endian number. */
  function NextRandA(s: State, ts: uint64, freshA: seq<uint8>): (r: seq<uint8>)
    requires s.WellFormed() && |freshA| == RAND_A_LENGTH
    ensures |r| == RAND_A_LENGTH
    ensures ts > s.lastTs ==> r == freshA
    ensures ts <= s.lastTs ==> BigEndian(r) == (BigEndian(s.randA) + 1) % 0x1_0000
  {
    IncrementedValue(s.randA);
    if ts > s.lastTs then freshA else Incremented(s.randA)
  }

  /** What one call leaves behind: the new record and the identifier. */
  datatype Output = Output(state: State, uuid: seq<uint8>)

  /** One call of the generator with clock reading `ts` and the random bytes
      the random source would deliver. */
  function Next(s: State, ts: uint64, freshA: seq<uint8>, freshB: seq<uint8>): (r: Output)
    requires s.WellFormed() && |freshA| == RAND_A_LENGTH && |freshB| == RAND_B_LENGTH
    ensures r.state.WellFormed() && |r.uuid| == UUID_T_LENGTH
    ensures r.state.lastTs == ts && r.state.randA == NextRandA(s, ts, freshA) && r.state.randB == freshB
    ensures r.uuid[..UNIX_TS_LENGTH] == TsBytes(ts)
    ensures BigEndian(r.uuid[..UNIX_TS_LENGTH]) == ts % TS_MODULUS
    ensures r.uuid[6] / 16 == 7 && r.uuid[8] / 64 == 2
    ensures r.uuid[6] % 16 == r.state.randA[0] % 16 && r.uuid[7] == r.state.randA[1]
    ensures r.uuid[8] % 64 == freshB[0] % 64 && r.uuid[9..] == freshB[1..]
    ensures Counter12(r.uuid) == BigEndian(r.state.randA) % 4096
  {
    var a := NextRandA(s, ts, freshA);
    LayoutFields(ts, a, freshB);
    Output(State(ts, a, freshB), Layout(ts, a, freshB))
  }

  // ---------------------------------------------------------------------------
  // The generator as a mutable record
  // ---------------------------------------------------------------------------

  class Generator {
    var lastTs: uint64
    const randA: array<uint8>
    const randB: array<uint8>

    ghost predicate Valid()
      reads this
    {
      randA.Length == RAND_A_LENGTH && randB.Length == RAND_B_LENGTH
    }

    /** The record's contents as a value. */
    function Snapshot(): (s: State)
      reads this, randA, randB
      requires Valid()
      ensures s.WellFormed()
    {
      State(lastTs, randA[..], randB[..])
    }

    constructor ()
      ensures Valid() && Snapshot() == Initial
    {
      lastTs := 0;
      randA := new uint8[RAND_A_LENGTH](_ => 0);
      randB := new uint8[RAND_B_LENGTH](_ => 0);
      new;
      assert randA[..] == [0, 0];
      assert randB[..] == [0, 0, 0, 0, 0, 0, 0, 0];
    }

    /** Produce one identifier into `uuid` from clock reading `ts`, reseeding
        the counter from `freshA` on a later millisecond and refilling the
        tail from `freshB`. */
    method CreateUuid7(ts: uint64, freshA: seq<uint8>, freshB: seq<uint8>, uuid: array<uint8>)
      requires Valid() && |freshA| == RAND_A_LENGTH && |freshB| == RAND_B_LENGTH
      requires uuid.Length == UUID_T_LENGTH
      modifies this, randA, randB, uuid
      ensures Valid()
      ensures Snapshot() == Next(old(Snapshot()), ts, freshA, freshB).state
      ensures uuid[..] == Next(old(Snapshot()), ts, freshA, freshB).uuid
    {
      ghost var s0 := Snapshot();

      // Timestamp, most significant byte first.
      WriteTimestamp(ts, uuid);

      // Counter: reseed, or add one with carry from the last byte.
      if ts > lastTs {
        Fill(randA, freshA);
      } else {
        IncrementCounter();
      }
      assert randA[..] == NextRandA(s0, ts, freshA);
      CopyInto(uuid, UNIX_TS_LENGTH, randA);

      // Tail.
      Fill(randB, freshB);
      CopyInto(uuid, UNIX_TS_LENGTH + RAND_A_LENGTH, randB);
      assert uuid[..] == TsBytes(ts) + randA[..] + randB[..];

      lastTs := ts;

      // Version 7 and variant 10.
      uuid[6] := 0x70 + uuid[6] % 16;
      uuid[8] := 0x80 + uuid[8] % 64;
    }

    /** `uuid[5 - i] = (uint8_t)(ts >> 8 * i)` for i from 0 to 5. */
    static method WriteTimestamp(ts: uint64, uuid: array<uint8>)
      requires uuid.Length == UUID_T_LENGTH
      modifies uuid
      ensures uuid[..UNIX_TS_LENGTH] == TsBytes(ts)
      ensures uuid[UNIX_TS_LENGTH..] == old(uuid[UNIX_TS_LENGTH..])
    {
      for i := 0 to UNIX_TS_LENGTH
        invariant forall k :: UNIX_TS_LENGTH - i <= k < UNIX_TS_LENGTH ==> uuid[k] == TsBytes(ts)[k]
        invariant uuid[UNIX_TS_LENGTH..] == old(uuid[UNIX_TS_LENGTH..])
      {
        TsBytesAt(ts, UNIX_TS_LENGTH - 1 - i);
        uuid[UNIX_TS_LENGTH - 1 - i] := ShiftByte(ts, i);
      }
    }

    /** `dst[at + i] = src[i]` for every index of `src`. */
    static method CopyInto(dst: array<uint8>, at: nat, src: array<uint8>)
      requires at + src.Length <= dst.Length && dst != src
      modifies dst
      ensures dst[..] == old(dst[..at]) + src[..] + old(dst[at + src.Length..])
    {
      for i := 0 to src.Length
        invariant dst[..at] == old(dst[..at])
        invariant dst[at..at + i] == src[..i]
        invariant dst[at + src.Length..] == old(dst[at + src.Length..])
      {
        dst[at + i] := src[i];
      }
      assert dst[..] == dst[..at] + dst[at..at + src.Length] + dst[at + src.Length..];
    }

    /** The random source's bytes land in `dst` unchanged. */
    static method Fill(dst: array<uint8>, src: seq<uint8>)
      requires dst.Length == |src|
      modifies dst
      ensures dst[..] == src
    {
      for i := 0 to dst.Length
        invariant dst[..i] == src[..i]
      {
        dst[i] := src[i];
      }
    }

    /** Walk from the last counter byte towards the first, incrementing each
        and stopping at the first one that did not wrap to zero. */
    method IncrementCounter()
      requires Valid()
      modifies randA
      ensures randA[..] == Incremented(old(randA[..]))
    {
      ghost var a0 := randA[..];
      var i := RAND_A_LENGTH - 1;
      while i >= 0
        invariant -1 <= i < RAND_A_LENGTH
        invariant Incremented(a0) == Incremented(randA[..i + 1]) + randA[i + 1..]
      {
        ghost var before := randA[..];
        randA[i] := Inc8(randA[i]);
        CarryStep(a0, before, randA[..], i);
        if randA[i] != 0 {
          break;
        }
        i := i - 1;
      }
    }
  }

  /** One step of the carry loop: incrementing byte i either ends the carry,
      leaving the whole increment, or wraps it to zero and moves the carry to
      byte i - 1. */
  lemma CarryStep(a0: seq<uint8>, before: seq<uint8>, after: seq<uint8>, i: nat)
    requires i < |before| && after == before[i := Inc8(before[i])]
    requires Incremented(a0) == Incremented(before[..i + 1]) + before[i + 1..]
    ensures after[i] != 0 ==> Incremented(a0) == after
    ensures after[i] == 0 ==> Incremented(a0) == Incremented(after[..i]) + after[i..]
  {
    assert before[..i + 1] == before[..i] + [before[i]];
    IncrementedSnoc(before[..i], before[i]);
    assert after[..i] == before[..i] && after[i + 1..] == before[i + 1..];
    if after[i] != 0 {
      assert after == after[..i] + [after[i]] + after[i + 1..];
    } else {
      assert after[i..] == [0] + after[i + 1..];
    }
  }

  // ---------------------------------------------------------------------------
  // Consecutive calls
  // ---------------------------------------------------------------------------

  /** Two calls in the same millisecond: the timestamp bytes agree and the
      visible 12-bit counter goes up by one modulo 4096. The second
      identifier sorts after the first unless that field wrapped from 0xFFF,
      because the carry into the version nibble is overwritten by the version
      stamp; then it sorts before. */
  lemma SameMillisecond(s: State, ts: uint64, a1: seq<uint8>, b1: seq<uint8>, a2: seq<uint8>, b2: seq<uint8>)
    requires s.WellFormed()
    requires |a1| == |a2| == RAND_A_LENGTH && |b1| == |b2| == RAND_B_LENGTH
    ensures var o1 := Next(s, ts, a1, b1);
      var o2 := Next(o1.state, ts, a2, b2);
      && o2.uuid[..UNIX_TS_LENGTH] == o1.uuid[..UNIX_TS_LENGTH]
      && Counter12(o2.uuid) == (Counter12(o1.uuid) + 1) % 4096
      && (Counter12(o1.uuid) != 0xFFF ==> ByteLess(o1.uuid, o2.uuid))
      && (Counter12(o1.uuid) == 0xFFF ==> ByteLess(o2.uuid, o1.uuid))
  {
    var o1 := Next(s, ts, a1, b1);
    var o2 := Next(o1.state, ts, a2, b2);
    var c1, c2 := Counter12(o1.uuid), Counter12(o2.uuid);
    var n1 := BigEndian(o1.state.randA);
    BigEndianTwo(o1.state.randA);
    CounterStep(n1);
    CounterOrder(o1.uuid, o2.uuid);
  }

  /** Adding one modulo 2^16 adds one to the low 12 bits modulo 4096. */
  lemma CounterStep(n: nat)
    requires n < 0x1_0000
    ensures ((n + 1) % 0x1_0000) % 4096 == (n % 4096 + 1) % 4096
  {
    var q := n / 4096;
    var r := n % 4096;
    assert n == 4096 * q + r;
    if n + 1 == 0x1_0000 {
      assert r == 4095;
    } else {
      assert (n + 1) % 0x1_0000 == n + 1;
      if r == 4095 {
        assert n + 1 == 4096 * (q + 1);
      } else {
        assert n + 1 == 4096 * q + (r + 1);
      }
    }
  }

  /** Two identifiers sharing the timestamp and version: the 12-bit counter
      field decides their order. */
  lemma CounterOrder(u1: seq<uint8>, u2: seq<uint8>)
    requires |u1| == |u2| == UUID_T_LENGTH
    requires u1[..UNIX_TS_LENGTH] == u2[..UNIX_TS_LENGTH]
    requires u1[6] / 16 == 7 && u2[6] / 16 == 7
    requires Counter12(u2) == (Counter12(u1) + 1) % 4096
    ensures Counter12(u1) != 0xFFF ==> ByteLess(u1, u2)
    ensures Counter12(u1) == 0xFFF ==> ByteLess(u2, u1)
  {
    if Counter12(u1) != 0xFFF {
      if u1[6] < u2[6] {
        LessAt(u1, u2, 6);
      } else {
        assert u1[..7] == u1[..6] + [u1[6]] && u2[..7] == u2[..6] + [u2[6]];
        LessAt(u1, u2, 7);
      }
    } else {
      LessAt(u2, u1, 6);
    }
  }

  /** A later millisecond (both readings below 2^48) reseeds the counter and
      gives an identifier that sorts after the previous one. */
  lemma LaterMillisecond(s: State, ts1: uint64, ts2: uint64, a1: seq<uint8>, b1: seq<uint8>, a2: seq<uint8>, b2: seq<uint8>)
    requires s.WellFormed()
    requires |a1| == |a2| == RAND_A_LENGTH && |b1| == |b2| == RAND_B_LENGTH
    requires ts1 < ts2 < TS_MODULUS
    ensures var o1 := Next(s, ts1, a1, b1);
      var o2 := Next(o1.state, ts2, a2, b2);
      && o2.state.randA == a2
      && ByteLess(o1.uuid, o2.uuid)
  {
    var o1 := Next(s, ts1, a1, b1);
    var o2 := Next(o1.state, ts2, a2, b2);
    TsBytesOrdered(ts1, ts2);
    var k := PrefixLess(TsBytes(ts1), TsBytes(ts2));
    assert o1.uuid[..k] == o1.uuid[..UNIX_TS_LENGTH][..k];
    assert o2.uuid[..k] == o2.uuid[..UNIX_TS_LENGTH][..k];
    LessAt(o1.uuid, o2.uuid, k);
  }

  /** The clock went backwards: the record still takes the earlier reading,
      the counter is bumped rather than reseeded, and the identifier sorts
      before the previous one. */
  lemma ClockRegression(s: State, ts1: uint64, ts2: uint64, a1: seq<uint8>, b1: seq<uint8>, a2: seq<uint8>, b2: seq<uint8>)
    requires s.WellFormed()
    requires |a1| == |a2| == RAND_A_LENGTH && |b1| == |b2| == RAND_B_LENGTH
    requires ts2 < ts1 < TS_MODULUS
    ensures var o1 := Next(s, ts1, a1, b1);
      var o2 := Next(o1.state, ts2, a2, b2);
      && o2.state.lastTs == ts2 < o1.state.lastTs
      && BigEndian(o2.state.randA) == (BigEndian(o1.state.randA) + 1) % 0x1_0000
      && ByteLess(o2.uuid, o1.uuid)
  {
    var o1 := Next(s, ts1, a1, b1);
    var o2 := Next(o1.state, ts2, a2, b2);
    TsBytesOrdered(ts2, ts1);
    var k := PrefixLess(TsBytes(ts2), TsBytes(ts1));
    assert o1.uuid[..k] == o1.uuid[..UNIX_TS_LENGTH][..k];
    assert o2.uuid[..k] == o2.uuid[..UNIX_TS_LENGTH][..k];
    LessAt(o2.uuid, o1.uuid, k);
  }
}
