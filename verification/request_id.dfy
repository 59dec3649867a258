/** Request identifiers of the GOR record writers. Both writers take a fresh random
    (version 4) UUID and keep a 24-character prefix of a textual form of it: the Go writer
    of the canonical `8-4-4-4-12` form (section 3 of RFC 4122), the Python writer of the 32
    hex digits without dashes. The random bytes are a parameter. */
module RequestId {
  import opened Seqs

  newtype Byte = x: int | 0 <= x < 256

  /** Sixteen random bytes, as read from the random source. */
  type Uuid = s: seq<Byte> | |s| == 16 witness seq(16, i => 0)

  predicate IsLowerHex(c: char) {
    '0' <= c <= '9' || 'a' <= c <= 'f'
  }

  predicate AllHex(s: string) {
    forall k :: 0 <= k < |s| ==> IsLowerHex(s[k])
  }

  /** The lower-case hex digit of `v`. */
  function HexDigit(v: int): (c: char)
    requires 0 <= v < 16
    ensures IsLowerHex(c)
    ensures v < 10 ==> c as int - '0' as int == v
    ensures v >= 10 ==> c as int - 'a' as int == v - 10
  {
    if v < 10 then ('0' as int + v) as char else ('a' as int + v - 10) as char
  }

  /** Lower-case hexadecimal text of a byte string, two digits per byte, high nibble first. */
  function Hex(bs: seq<Byte>): (h: string)
    ensures |h| == 2 * |bs|
    decreases |bs|
  {
    if bs == [] then ""
    else [HexDigit(bs[0] as int / 16), HexDigit(bs[0] as int % 16)] + Hex(bs[1..])
  }

  /** Hex text holds hex digits only. */
  lemma {:induction false} HexIsHex(bs: seq<Byte>)
    ensures AllHex(Hex(bs))
    decreases |bs|
  {
    if bs != [] {
      HexIsHex(bs[1..]);
      var h := Hex(bs);
      var rest := Hex(bs[1..]);
      forall k | 2 <= k < |h|
        ensures IsLowerHex(h[k])
      {
        assert h[k] == rest[k - 2];
      }
    }
  }

  /** Hex text is built byte by byte, so it distributes over concatenation. */
  lemma {:induction false} HexConcat(a: seq<Byte>, b: seq<Byte>)
    ensures Hex(a + b) == Hex(a) + Hex(b)
    decreases |a|
  {
    if a != [] {
      assert (a + b)[1..] == a[1..] + b;
      HexConcat(a[1..], b);
    } else {
      assert a + b == b;
    }
  }

  /** The hex text of a slice is the matching slice of the hex text. */
  lemma HexSlice(bs: seq<Byte>, i: nat, j: nat)
    requires i <= j <= |bs|
    ensures Hex(bs[i..j]) == Hex(bs)[2 * i..2 * j]
  {
    var x, y, z := bs[..i], bs[i..j], bs[j..];
    CutTwice(bs, i, j);
    HexConcat(x + y, z);
    HexConcat(x, y);
    assert Hex(bs) == Hex(x) + Hex(y) + Hex(z);
    MiddleSlice(Hex(x), Hex(y), Hex(z));
  }

  /** The two digits of a single byte. */
  lemma HexByte(b: Byte)
    ensures Hex([b]) == [HexDigit(b as int / 16), HexDigit(b as int % 16)]
  {
    assert [b][1..] == [];
  }

  /** Makes random bytes a version 4 UUID (section 4.4 of RFC 4122): the high nibble of
      byte 6 becomes 4 and the two high bits of byte 8 become `10`; all other bits are kept. */
  function Version4(random: Uuid): (u: Uuid)
    ensures u[6] as int / 16 == 4 && u[6] % 16 == random[6] % 16
    ensures u[8] as int / 64 == 2 && u[8] % 64 == random[8] % 64
    ensures forall k :: 0 <= k < 16 && k != 6 && k != 8 ==> u[k] == random[k]
  {
    random[6 := random[6] % 16 + 0x40][8 := random[8] % 64 + 0x80]
  }

  /** The canonical string form `xxxxxxxx-xxxx-xxxx-xxxx-xxxxxxxxxxxx` (section 3 of RFC 4122). */
  function CanonicalForm(u: Uuid): string {
    Hex(u[..4]) + "-" + Hex(u[4..6]) + "-" + Hex(u[6..8]) + "-" + Hex(u[8..10]) + "-" + Hex(u[10..])
  }

  /** The Go identifier: the first 24 characters of the canonical text form of a fresh
      version 4 UUID. The prefix ends in a dash: it is
      `xxxxxxxx-xxxx-4xxx-Vxxx-` with `V` one of `8`, `9`, `a`, `b`. */
  function GoRequestId(random: Uuid): (id: string)
    ensures |id| == 24
    ensures id[8] == '-' && id[13] == '-' && id[18] == '-' && id[23] == '-'
    ensures AllHex(id[..8]) && AllHex(id[9..13]) && AllHex(id[14..18]) && AllHex(id[19..23])
    ensures id[14] == '4' && id[19] in "89ab"
  {
    var u := Version4(random);
    GoPrefixLayout(u);
    HexIsHex(u[..4]);
    HexIsHex(u[4..6]);
    HexIsHex(u[6..8]);
    HexIsHex(u[8..10]);
    CanonicalForm(u)[..24]
  }

  /** Four groups, each followed by a dash. */
  function Dashed(a: string, b: string, c: string, d: string): string {
    a + "-" + b + "-" + c + "-" + d + "-"
  }

  lemma DashedLayout(a: string, b: string, c: string, d: string)
    requires |a| == 8 && |b| == 4 && |c| == 4 && |d| == 4
    ensures var p := Dashed(a, b, c, d);
            && |p| == 24
            && p[..8] == a && p[9..13] == b && p[14..18] == c && p[19..23] == d
            && p[8] == '-' && p[13] == '-' && p[18] == '-' && p[23] == '-'
  {
  }

  /** The version digit and the variant digit of a version 4 UUID. */
  lemma VersionDigits(u: Uuid)
    requires u[6] as int / 16 == 4 && u[8] as int / 64 == 2
    ensures Hex(u[6..8])[0] == '4' && Hex(u[8..10])[0] in "89ab"
  {
    assert u[6..8] == [u[6]] + [u[7]] && u[8..10] == [u[8]] + [u[9]];
    HexConcat([u[6]], [u[7]]);
    HexConcat([u[8]], [u[9]]);
    HexByte(u[6]);
    HexByte(u[8]);
    var v := u[8] as int / 16;
    assert 8 <= v < 12;
    assert HexDigit(v) == ['8', '9', 'a', 'b'][v - 8];
  }

  lemma GoPrefixLayout(u: Uuid)
    requires u[6] as int / 16 == 4 && u[8] as int / 64 == 2
    ensures var p := CanonicalForm(u)[..24];
            && |p| == 24
            && p[..8] == Hex(u[..4]) && p[9..13] == Hex(u[4..6])
            && p[14..18] == Hex(u[6..8]) && p[19..23] == Hex(u[8..10])
            && p[8] == '-' && p[13] == '-' && p[18] == '-' && p[23] == '-'
            && p[14] == '4' && p[19] in "89ab"
  {
    var a, b, c, d := Hex(u[..4]), Hex(u[4..6]), Hex(u[6..8]), Hex(u[8..10]);
    var p := Dashed(a, b, c, d);
    assert CanonicalForm(u) == p + Hex(u[10..]);
    assert CanonicalForm(u)[..24] == p;
    DashedLayout(a, b, c, d);
    VersionDigits(u);
    assert p[14] == c[0] && p[19] == d[0];
  }

  /** The Python identifier: the first 24 digits of the plain hex form of a fresh version 4
      UUID, 24 lower-case hex digits
      whose 13th is the version digit `4` and whose 17th is one of `8`, `9`, `a`, `b`. */
  function PyRequestId(random: Uuid): (id: string)
    ensures |id| == 24 && AllHex(id)
    ensures id[12] == '4' && id[16] in "89ab"
  {
    var u := Version4(random);
    PyPrefixLayout(u);
    Hex(u)[..24]
  }

  lemma PyPrefixLayout(u: Uuid)
    requires u[6] as int / 16 == 4 && u[8] as int / 64 == 2
    ensures var p := Hex(u)[..24];
            |p| == 24 && AllHex(p) && p[12] == '4' && p[16] in "89ab"
  {
    var h := Hex(u);
    HexIsHex(u);
    VersionDigits(u);
    HexSlice(u, 6, 8);
    HexSlice(u, 8, 10);
    assert h[12] == h[12..16][0] && h[16] == h[16..20][0];
  }

  /** Both writers expose the same random bits: the Go identifier with its dashes removed
      is the first 20 digits of the Python identifier drawn from the same bytes. */
  lemma GoIdIsDashedPyId(random: Uuid)
    ensures var g := GoRequestId(random);
            g[..8] + g[9..13] + g[14..18] + g[19..23] == PyRequestId(random)[..20]
  {
    var u := Version4(random);
    GoPrefixLayout(u);
    var h := Hex(u);
    HexSlice(u, 0, 4);
    HexSlice(u, 4, 6);
    HexSlice(u, 6, 8);
    HexSlice(u, 8, 10);
    assert u[..4] == u[0..4];
    assert h[..20] == h[0..8] + h[8..12] + h[12..16] + h[16..20];
  }
}
