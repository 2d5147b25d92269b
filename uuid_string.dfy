/** The text form of an identifier: 32 lower-case hex digits in groups of
    8-4-4-4-12 separated by hyphens (section 4 of RFC 9562). */
module UuidString {
  import opened UuidLayout
  import UuidGenerator

  /** The digit table, indexed by nibble value. */
  const HEX: string := "0123456789abcdef"

  /** The digit for a nibble value: `hex[n]`. */
  function HexDigit(n: nat): char
    requires n < 16
  {
    if n < 10 then ('0' as int + n) as char else ('a' as int + n - 10) as char
  }

  /** The digit function and the table agree. */
  lemma HexDigitIsTable(n: nat)
    requires n < 16
    ensures HexDigit(n) == HEX[n]
  {
  }

  /** Distinct nibbles have distinct digits. */
  lemma HexDistinct(a: nat, b: nat)
    requires a < 16 && b < 16 && HexDigit(a) == HexDigit(b)
    ensures a == b
  {
  }

  /** Two hex digits per byte, high nibble first, with no separators. */
  function HexOf(s: seq<uint8>): (r: string)
    ensures |r| == 2 * |s|
  {
    if s == [] then "" else [HexDigit(s[0] / 16), HexDigit(s[0] % 16)] + HexOf(s[1..])
  }

  lemma {:induction false} HexOfAt(s: seq<uint8>, j: nat)
    requires j < |s|
    ensures HexOf(s)[2 * j] == HexDigit(s[j] / 16) && HexOf(s)[2 * j + 1] == HexDigit(s[j] % 16)
  {
    if j > 0 {
      HexOfAt(s[1..], j - 1);
    }
  }

  lemma {:induction false} HexOfDigits(s: seq<uint8>)
    ensures forall k :: 0 <= k < |HexOf(s)| ==> HexOf(s)[k] in HEX
  {
    if s != [] {
      HexOfDigits(s[1..]);
      HexDigitIsTable(s[0] / 16);
      HexDigitIsTable(s[0] % 16);
    }
  }

  /** The canonical text: the five byte groups 4-2-2-2-6 in hex, hyphen
      separated. */
  function Canonical(u: seq<uint8>): (r: string)
    requires |u| == UUID_T_LENGTH
  {
    HexOf(u[..4]) + "-" + HexOf(u[4..6]) + "-" + HexOf(u[6..8]) + "-" + HexOf(u[8..10]) + "-" + HexOf(u[10..])
  }

  /** A hyphen goes before bytes 4, 6, 8 and 10. */
  predicate GroupStart(i: nat)
  {
    i == 4 || i == 6 || i == 8 || i == 10
  }

  /** How many hyphens come before the digits of byte n: one for each group
      start below n. */
  function HyphensBelow(n: nat): (h: nat)
    ensures h <= 4
  {
    if n > 10 then 4 else if n > 8 then 3 else if n > 6 then 2 else if n > 4 then 1 else 0
  }

  /** Where the high digit of byte i sits in the text. */
  function HexPos(i: nat): nat
  {
    2 * i + HyphensBelow(i + 1)
  }

  /** Byte i's two digits sit at `HexPos(i)` and the next index, and a hyphen
      sits just before them when byte i starts a group. */
  lemma CanonicalAt(u: seq<uint8>, i: nat)
    requires |u| == UUID_T_LENGTH && i < UUID_T_LENGTH
    ensures |Canonical(u)| == 36
    ensures Canonical(u)[HexPos(i)] == HexDigit(u[i] / 16)
    ensures Canonical(u)[HexPos(i) + 1] == HexDigit(u[i] % 16)
    ensures GroupStart(i) ==> Canonical(u)[HexPos(i) - 1] == '-'
  {
    if i < 4 {
      Group0At(u, i);
    } else if i < 6 {
      Group1At(u, i);
    } else if i < 8 {
      Group2At(u, i);
    } else if i < 10 {
      Group3At(u, i);
    } else {
      Group4At(u, i);
    }
  }

  lemma Group0At(u: seq<uint8>, i: nat)
    requires |u| == UUID_T_LENGTH && i < 4
    ensures Canonical(u)[2 * i] == HexDigit(u[i] / 16) && Canonical(u)[2 * i + 1] == HexDigit(u[i] % 16)
  {
    HexOfAt(u[..4], i);
  }

  lemma Group1At(u: seq<uint8>, i: nat)
    requires |u| == UUID_T_LENGTH && 4 <= i < 6
    ensures Canonical(u)[2 * i + 1] == HexDigit(u[i] / 16) && Canonical(u)[2 * i + 2] == HexDigit(u[i] % 16)
    ensures Canonical(u)[8] == '-'
  {
    HexOfAt(u[4..6], i - 4);
  }

  lemma Group2At(u: seq<uint8>, i: nat)
    requires |u| == UUID_T_LENGTH && 6 <= i < 8
    ensures Canonical(u)[2 * i + 2] == HexDigit(u[i] / 16) && Canonical(u)[2 * i + 3] == HexDigit(u[i] % 16)
    ensures Canonical(u)[13] == '-'
  {
    HexOfAt(u[6..8], i - 6);
  }

  lemma Group3At(u: seq<uint8>, i: nat)
    requires |u| == UUID_T_LENGTH && 8 <= i < 10
    ensures Canonical(u)[2 * i + 3] == HexDigit(u[i] / 16) && Canonical(u)[2 * i + 4] == HexDigit(u[i] % 16)
    ensures Canonical(u)[18] == '-'
  {
    HexOfAt(u[8..10], i - 8);
  }

  lemma Group4At(u: seq<uint8>, i: nat)
    requires |u| == UUID_T_LENGTH && 10 <= i < 16
    ensures Canonical(u)[2 * i + 4] == HexDigit(u[i] / 16) && Canonical(u)[2 * i + 5] == HexDigit(u[i] % 16)
    ensures Canonical(u)[23] == '-'
  {
    HexOfAt(u[10..], i - 10);
  }

  /** What the renderer writes for byte i: a hyphen when the byte starts a
      group, then its two digits. */
  function Piece(u: seq<uint8>, i: nat): (r: string)
    requires |u| == UUID_T_LENGTH && i < UUID_T_LENGTH
    ensures |r| == if GroupStart(i) then 3 else 2
  {
    (if GroupStart(i) then "-" else "") + [HexDigit(u[i] / 16), HexDigit(u[i] % 16)]
  }

  /** The text written for the first n bytes. */
  function Rendered(u: seq<uint8>, n: nat): string
    requires |u| == UUID_T_LENGTH && n <= UUID_T_LENGTH
  {
    if n == 0 then "" else Rendered(u, n - 1) + Piece(u, n - 1)
  }

  lemma {:induction false} RenderedLength(u: seq<uint8>, n: nat)
    requires |u| == UUID_T_LENGTH && n <= UUID_T_LENGTH
    ensures |Rendered(u, n)| == 2 * n + HyphensBelow(n)
  {
    if n > 0 {
      RenderedLength(u, n - 1);
    }
  }

  lemma {:induction false} HexOfSnoc(s: seq<uint8>, b: uint8)
    ensures HexOf(s + [b]) == HexOf(s) + [HexDigit(b / 16), HexDigit(b % 16)]
  {
    if s != [] {
      assert (s + [b])[1..] == s[1..] + [b];
      HexOfSnoc(s[1..], b);
    } else {
      assert [b][1..] == [];
    }
  }

  /** Regrouping a concatenation. Kept as a lemma of its own so that the
      proof of `RenderedGroup` sees only this instance of it. */
  lemma Associative(a: string, b: string, c: string)
    ensures a + b + c == a + (b + c)
  {
  }

  /** Before the first hyphen the rendered text is the digits alone. */
  lemma {:induction false} RenderedFirstGroup(u: seq<uint8>, n: nat)
    requires |u| == UUID_T_LENGTH && n <= 4
    ensures Rendered(u, n) == HexOf(u[..n])
  {
    if n > 0 {
      RenderedFirstGroup(u, n - 1);
      HexOfSnoc(u[..n - 1], u[n - 1]);
      assert u[..n] == u[..n - 1] + [u[n - 1]];
    }
  }

  /** Inside a later group the rendered text is the text before the group,
      its hyphen, and the group's digits. */
  lemma {:induction false} RenderedGroup(u: seq<uint8>, lo: nat, n: nat)
    requires |u| == UUID_T_LENGTH && lo < n <= UUID_T_LENGTH && GroupStart(lo)
    requires forall j :: lo < j < n ==> !GroupStart(j)
    ensures Rendered(u, n) == Rendered(u, lo) + "-" + HexOf(u[lo..n])
  {
    var b := u[n - 1];
    var digits := [HexDigit(b / 16), HexDigit(b % 16)];
    var g := u[lo..n - 1];
    assert HexOf(u[lo..n]) == HexOf(g) + digits by {
      assert u[lo..n] == g + [b];
      HexOfSnoc(g, b);
    }
    var before := Rendered(u, lo);
    if n - 1 > lo {
      assert Rendered(u, n - 1) == before + "-" + HexOf(g) by {
        RenderedGroup(u, lo, n - 1);
      }
      assert Piece(u, n - 1) == digits;
      Associative(before + "-", HexOf(g), digits);
    } else {
      assert HexOf(g) + digits == digits by {
        assert g == [];
      }
      assert Piece(u, n - 1) == "-" + digits;
      Associative(before, "-", digits);
    }
  }

  /** The renderer's running output, completed, is the canonical text. */
  lemma RenderedIsCanonical(u: seq<uint8>)
    requires |u| == UUID_T_LENGTH
    ensures Rendered(u, UUID_T_LENGTH) == Canonical(u)
  {
    var h0, h1, h2, h3, h4 := HexOf(u[..4]), HexOf(u[4..6]), HexOf(u[6..8]), HexOf(u[8..10]), HexOf(u[10..]);
    var r4, r6, r8, r10, r16 := Rendered(u, 4), Rendered(u, 6), Rendered(u, 8), Rendered(u, 10), Rendered(u, 16);
    RenderedFirstGroup(u, 4);
    assert r4 == h0;
    RenderedGroup(u, 4, 6);
    assert r6 == r4 + "-" + h1;
    RenderedGroup(u, 6, 8);
    assert r8 == r6 + "-" + h2;
    RenderedGroup(u, 8, 10);
    assert r10 == r8 + "-" + h3;
    RenderedGroup(u, 10, 16);
    assert u[10..16] == u[10..];
    assert r16 == r10 + "-" + h4;
  }

  /** 36 characters: hyphens at 8, 13, 18 and 23, lower-case hex digits
      everywhere else. */
  lemma CanonicalShape(u: seq<uint8>)
    requires |u| == UUID_T_LENGTH
    ensures var r := Canonical(u);
      && |r| == 36
      && r[8] == '-' && r[13] == '-' && r[18] == '-' && r[23] == '-'
      && forall k :: 0 <= k < 36 && k != 8 && k != 13 && k != 18 && k != 23 ==> r[k] in HEX
  {
    HexOfDigits(u[..4]);
    HexOfDigits(u[4..6]);
    HexOfDigits(u[6..8]);
    HexOfDigits(u[8..10]);
    HexOfDigits(u[10..]);
  }

  /** Different identifiers have different texts. */
  lemma CanonicalInjective(u: seq<uint8>, v: seq<uint8>)
    requires |u| == UUID_T_LENGTH && |v| == UUID_T_LENGTH
    requires Canonical(u) == Canonical(v)
    ensures u == v
  {
    forall i | 0 <= i < UUID_T_LENGTH
      ensures u[i] == v[i]
    {
      CanonicalAt(u, i);
      CanonicalAt(v, i);
      HexDistinct(u[i] / 16, v[i] / 16);
      HexDistinct(u[i] % 16, v[i] % 16);
    }
  }

  /** Every generated identifier shows version digit `7` at index 14 and a
      variant digit from `89ab` at index 19. */
  lemma GeneratedDigits(s: UuidGenerator.State, ts: uint64, freshA: seq<uint8>, freshB: seq<uint8>)
    requires s.WellFormed() && |freshA| == RAND_A_LENGTH && |freshB| == RAND_B_LENGTH
    ensures var r := Canonical(UuidGenerator.Next(s, ts, freshA, freshB).uuid);
      r[14] == '7' && r[19] in "89ab"
  {
    var u := UuidGenerator.Next(s, ts, freshA, freshB).uuid;
    CanonicalAt(u, 6);
    CanonicalAt(u, 8);
    assert 8 <= u[8] / 16 < 12;
  }

  /** The text a NUL-terminated character buffer holds: everything before
      the first NUL. */
  function BeforeNul(a: seq<char>): (r: seq<char>)
    ensures |r| <= |a| && r == a[..|r|]
    ensures '\0' !in r
    ensures |r| < |a| ==> a[|r|] == '\0'
  {
    if a == [] || a[0] == '\0' then [] else [a[0]] + BeforeNul(a[1..])
  }

  /** Render 16 bytes into a 37-character buffer with a running write index,
      then take the NUL-terminated text. */
  method UuidToString(uuid: array<uint8>) returns (out: string)
    requires uuid.Length == UUID_T_LENGTH
    ensures out == Canonical(uuid[..])
  {
    ghost var u := uuid[..];
    var str := new char[37];
    var s := 0;
    for i := 0 to UUID_T_LENGTH
      invariant s == 2 * i + HyphensBelow(i) == |Rendered(u, i)|
      invariant forall k :: 0 <= k < s ==> str[k] == Rendered(u, i)[k]
    {
      RenderedLength(u, i + 1);
      if i == 4 || i == 6 || i == 8 || i == 10 {
        str[s] := '-';
        s := s + 1;
      }
      str[s] := HexDigit(uuid[i] / 16);
      s := s + 1;
      str[s] := HexDigit(uuid[i] % 16);
      s := s + 1;
    }
    assert str[..36] == Rendered(u, UUID_T_LENGTH);
    str[s] := '\0';
    s := s + 1;
    RenderedIsCanonical(u);
    BufferText(str[..], u);
    out := BeforeNul(str[..]);
  }

  /** The filled buffer holds exactly the canonical text. */
  lemma BufferText(a: seq<char>, u: seq<uint8>)
    requires |u| == UUID_T_LENGTH && |a| == 37
    requires a[..36] == Canonical(u) && a[36] == '\0'
    ensures BeforeNul(a) == Canonical(u)
  {
    CanonicalShape(u);
    assert '\0' !in a[..36];
  }
}
