/**
 * The address values of client/discovered_services.h (IPv4Address, IPv6Address)
 * and the two-version address of the discovery library (openscreen::IPAddress).
 */
module Addresses {
  import opened Text

  type Bytes4 = s: seq<Byte> | |s| == 4 witness [0, 0, 0, 0]
  type Bytes16 = s: seq<Byte> | |s| == 16 witness [0, 0, 0, 0, 0, 0, 0, 0, 0, 0, 0, 0, 0, 0, 0, 0]

  datatype IPv4Address = IPv4Address(bytes: Bytes4)
  datatype IPv6Address = IPv6Address(bytes: Bytes16)

  /** An address as the discovery library reports it: one of the two versions. */
  datatype IPAddress = V4(v4: IPv4Address) | V6(v6: IPv6Address)

  // ----- std::memcmp -----

  /**
   * The sign of std::memcmp over two byte strings of the same length: the
   * first differing byte decides, compared as unsigned.
   */
  function Memcmp(a: seq<Byte>, b: seq<Byte>): (r: int)
    requires |a| == |b|
    ensures -1 <= r <= 1
    ensures r == 0 <==> a == b
  {
    if a == [] then 0
    else if a[0] < b[0] then -1
    else if a[0] > b[0] then 1
    else
      assert a == [a[0]] + a[1..] && b == [b[0]] + b[1..];
      Memcmp(a[1..], b[1..])
  }

  /** Lexicographic order, stated independently: a common prefix, then a smaller byte. */
  ghost predicate LexLess(a: seq<Byte>, b: seq<Byte>)
    requires |a| == |b|
  {
    exists k :: 0 <= k < |a| && a[..k] == b[..k] && a[k] < b[k]
  }

  lemma {:induction false} MemcmpIsLexicographic(a: seq<Byte>, b: seq<Byte>)
    requires |a| == |b|
    ensures Memcmp(a, b) < 0 <==> LexLess(a, b)
  {
    if a != [] {
      if a[0] < b[0] {
        assert a[..0] == b[..0];
      } else if a[0] > b[0] {
      } else {
        MemcmpIsLexicographic(a[1..], b[1..]);
        if LexLess(a, b) {
          var k :| 0 <= k < |a| && a[..k] == b[..k] && a[k] < b[k];
          assert k > 0;
          assert a[1..][..k - 1] == a[..k][1..] && b[1..][..k - 1] == b[..k][1..];
          assert a[1..][k - 1] == a[k] && b[1..][k - 1] == b[k];
        }
        if LexLess(a[1..], b[1..]) {
          var k :| 0 <= k < |a| - 1 && a[1..][..k] == b[1..][..k] && a[1..][k] < b[1..][k];
          assert a[..k + 1] == [a[0]] + a[1..][..k];
          assert b[..k + 1] == [b[0]] + b[1..][..k];
        }
      }
    }
  }

  lemma {:induction false} MemcmpAntisymmetric(a: seq<Byte>, b: seq<Byte>)
    requires |a| == |b|
    ensures Memcmp(a, b) == -Memcmp(b, a)
  {
    if a != [] && a[0] == b[0] {
      MemcmpAntisymmetric(a[1..], b[1..]);
    }
  }

  lemma {:induction false} MemcmpTransitive(a: seq<Byte>, b: seq<Byte>, c: seq<Byte>)
    requires |a| == |b| == |c|
    requires Memcmp(a, b) < 0 && Memcmp(b, c) < 0
    ensures Memcmp(a, c) < 0
  {
    if a[0] == b[0] && b[0] == c[0] {
      MemcmpTransitive(a[1..], b[1..], c[1..]);
    }
  }

  // ----- IPv4Address -----

  /** IPv4Address::operator==: memcmp of the four bytes is zero. */
  function V4Equal(a: IPv4Address, b: IPv4Address): (r: bool)
    ensures r <==> a == b
    ensures r <==> forall i :: 0 <= i < 4 ==> a.bytes[i] == b.bytes[i]
  {
    Memcmp(a.bytes, b.bytes) == 0
  }

  /** Dotted-decimal text of the four bytes, as std::format("{}.{}.{}.{}") prints them. */
  function V4Text(a: IPv4Address): string
  {
    Decimal(a.bytes[0]) + "." + Decimal(a.bytes[1]) + "." + Decimal(a.bytes[2]) + "." + Decimal(a.bytes[3])
  }

  function V4Fields(a: IPv4Address): seq<string>
  {
    [Decimal(a.bytes[0]), Decimal(a.bytes[1]), Decimal(a.bytes[2]), Decimal(a.bytes[3])]
  }

  /** The text has exactly four dot-separated fields, each the decimal of one byte. */
  lemma V4TextFields(a: IPv4Address)
    ensures Split(V4Text(a), '.') == V4Fields(a)
  {
    var f := V4Fields(a);
    assert Join(f, '.') == V4Text(a) by {
      assert f[1..][1..][1..] == [f[3]];
      assert Join(f[2..], '.') == f[2] + "." + f[3];
      assert Join(f[1..], '.') == f[1] + "." + f[2] + "." + f[3];
    }
    SplitJoin(f, '.');
  }

  lemma V4TextLength(a: IPv4Address)
    ensures 7 <= |V4Text(a)| <= 15
  {
    DecimalLength(a.bytes[0]);
    DecimalLength(a.bytes[1]);
    DecimalLength(a.bytes[2]);
    DecimalLength(a.bytes[3]);
  }

  /** Different addresses never print the same. */
  lemma V4TextInjective(a: IPv4Address, b: IPv4Address)
    requires V4Text(a) == V4Text(b)
    ensures a == b
  {
    V4TextFields(a);
    V4TextFields(b);
    forall i | 0 <= i < 4 ensures a.bytes[i] == b.bytes[i] {
      assert V4Fields(a)[i] == V4Fields(b)[i];
      DecimalInjective(a.bytes[i], b.bytes[i]);
    }
  }

  // ----- IPv6Address -----

  /** IPv6Address::operator<: memcmp of the sixteen bytes is negative. */
  function V6Less(a: IPv6Address, b: IPv6Address): (r: bool)
    ensures r <==> LexLess(a.bytes, b.bytes)
  {
    MemcmpIsLexicographic(a.bytes, b.bytes);
    Memcmp(a.bytes, b.bytes) < 0
  }

  /** IPv6Address::operator==: memcmp of the sixteen bytes is zero. */
  function V6Equal(a: IPv6Address, b: IPv6Address): (r: bool)
    ensures r <==> a == b
  {
    Memcmp(a.bytes, b.bytes) == 0
  }

  /** `<` is a strict total order whose equivalence is `==`. */
  lemma V6LessTrichotomy(a: IPv6Address, b: IPv6Address)
    ensures !V6Less(a, a)
    ensures V6Less(a, b) ==> !V6Less(b, a)
    ensures V6Less(a, b) || a == b || V6Less(b, a)
  {
    MemcmpAntisymmetric(a.bytes, b.bytes);
  }

  lemma V6LessTransitive(a: IPv6Address, b: IPv6Address, c: IPv6Address)
    requires V6Less(a, b) && V6Less(b, c)
    ensures V6Less(a, c)
  {
    MemcmpTransitive(a.bytes, b.bytes, c.bytes);
  }

  /** The k-th 16-bit group, big-endian: (bytes[2k] << 8) | bytes[2k+1]. */
  function Word(a: IPv6Address, k: nat): (w: nat)
    requires k < 8
    ensures w < 0x1_0000
  {
    (a.bytes[2 * k] as int) * 256 + a.bytes[2 * k + 1]
  }

  function Groups(a: IPv6Address): (gs: seq<string>)
    ensures |gs| == 8
  {
    seq(8, k requires 0 <= k < 8 => Hex(Word(a, k)))
  }

  /** The text IPv6Address::to_string yields: the eight groups in "{:x}", joined by ':'. */
  function V6Text(a: IPv6Address): string
  {
    Join(Groups(a), ':')
  }

  /** IPv6Address::to_string. */
  method ToString(a: IPv6Address) returns (result: string)
    ensures result == V6Text(a)
  {
    result := "";
    var i := 0;
    ghost var k := 0;
    while i < 16
      invariant 0 <= k <= 8 && i == 2 * k
      invariant k == 0 ==> result == ""
      invariant 0 < k ==> result == Join(Groups(a)[..k], ':') + (if k < 8 then ":" else "")
    {
      var word := (a.bytes[i] as int) * 256 + a.bytes[i + 1];
      assert word == Word(a, k);
      ghost var done := Groups(a)[..k];
      assert Groups(a)[..k + 1] == done + [Hex(word)];
      if k > 0 {
        JoinSnoc(done, Hex(word), ':');
      }
      result := result + Hex(word);
      if i < 14 {
        result := result + ":";
      }
      i := i + 2;
      k := k + 1;
    }
    assert Groups(a)[..8] == Groups(a);
  }

  /**
   * The text is exactly eight colon-separated groups, each the group's value in
   * lower-case hexadecimal of one to four digits without leading zeros; there is no
   * "::" compression.
   */
  lemma V6TextGroups(a: IPv6Address)
    ensures Split(V6Text(a), ':') == Groups(a)
    ensures forall k :: 0 <= k < 8 ==>
      && 1 <= |Groups(a)[k]| <= 4
      && AllLowerHex(Groups(a)[k])
      && HexValue(Groups(a)[k]) == Word(a, k)
      && (Groups(a)[k][0] == '0' ==> Groups(a)[k] == "0")
  {
    var gs := Groups(a);
    forall k | 0 <= k < 8
      ensures 1 <= |gs[k]| <= 4 && HexValue(gs[k]) == Word(a, k) && (gs[k][0] == '0' ==> gs[k] == "0")
    {
      HexLength16(Word(a, k));
      HexRoundTrip(Word(a, k));
      HexNoLeadingZero(Word(a, k));
    }
    SplitV6Text(a);
  }

  lemma SplitV6Text(a: IPv6Address)
    ensures Split(V6Text(a), ':') == Groups(a)
  {
    var gs := Groups(a);
    assert NoSep(gs, ':');
    SplitJoin(gs, ':');
  }

  lemma V6TextLength(a: IPv6Address)
    ensures 15 <= |V6Text(a)| <= 39
  {
    var gs := Groups(a);
    forall k | 0 <= k < 8 ensures 1 <= |gs[k]| <= 4 {
      HexLength16(Word(a, k));
    }
    JoinLength(gs, ':', 1, 4);
  }

  /** Different addresses never print the same: the text determines all sixteen bytes. */
  lemma V6TextInjective(a: IPv6Address, b: IPv6Address)
    requires V6Text(a) == V6Text(b)
    ensures a == b
  {
    SplitV6Text(a);
    SplitV6Text(b);
    forall k | 0 <= k < 8 ensures Word(a, k) == Word(b, k) {
      assert Groups(a)[k] == Groups(b)[k];
      HexRoundTrip(Word(a, k));
      HexRoundTrip(Word(b, k));
    }
    forall i | 0 <= i < 16 ensures a.bytes[i] == b.bytes[i] {
      var k := Half(i);
      assert Word(a, k) == Word(b, k);
      WordBytes(a.bytes[2 * k], a.bytes[2 * k + 1], b.bytes[2 * k], b.bytes[2 * k + 1]);
    }
  }

  lemma Half(i: nat) returns (k: nat)
    requires i < 16
    ensures k < 8 && (i == 2 * k || i == 2 * k + 1)
  {
    k := i / 2;
  }

  /** A 16-bit word determines its two bytes. */
  lemma WordBytes(x1: Byte, y1: Byte, x2: Byte, y2: Byte)
    requires x1 * 256 + y1 == x2 * 256 + y2
    ensures x1 == x2 && y1 == y2
  {
  }
}
