/**
 * Character and string helpers shared by the modules: decimal and hexadecimal
 * rendering (what printf's "%d", "%x", "%04zx" and std::format's "{}", "{:x}"
 * produce for non-negative numbers) with their inverses, and splitting and
 * joining on a separator character (android::base::Split).
 */
module Text {
  import opened Wrappers

  type Byte = x: int | 0 <= x < 256

  predicate IsDigit(c: char) { '0' <= c <= '9' }

  function DigitValue(c: char): nat
    requires IsDigit(c)
  {
    (c as int) - ('0' as int)
  }

  function DigitChar(d: nat): (c: char)
    requires d < 10
    ensures IsDigit(c) && DigitValue(c) == d
  {
    (('0' as int) + d) as char
  }

  predicate AllDigits(s: string) { forall i :: 0 <= i < |s| ==> IsDigit(s[i]) }

  /** Decimal rendering without leading zeros. */
  function Decimal(n: nat): (s: string)
    ensures |s| >= 1 && AllDigits(s)
  {
    if n < 10 then [DigitChar(n)] else Decimal(n / 10) + [DigitChar(n % 10)]
  }

  /** The value of a string of decimal digits. */
  function DecimalValue(s: string): nat
    requires AllDigits(s)
  {
    if s == [] then 0 else DecimalValue(s[..|s| - 1]) * 10 + DigitValue(s[|s| - 1])
  }

  lemma {:induction false} DecimalRoundTrip(n: nat)
    ensures DecimalValue(Decimal(n)) == n
  {
    if n >= 10 {
      var s := Decimal(n);
      assert s[..|s| - 1] == Decimal(n / 10);
      DecimalRoundTrip(n / 10);
    }
  }

  lemma DecimalInjective(m: nat, n: nat)
    requires Decimal(m) == Decimal(n)
    ensures m == n
  {
    DecimalRoundTrip(m);
    DecimalRoundTrip(n);
  }

  /** The rendering has no leading zero: it starts with '0' only for zero itself. */
  lemma {:induction false} DecimalNoLeadingZero(n: nat)
    ensures Decimal(n)[0] == '0' <==> n == 0
  {
    if n >= 10 {
      DecimalNoLeadingZero(n / 10);
    }
  }

  lemma DecimalLength(n: nat)
    ensures n < 10 ==> |Decimal(n)| == 1
    ensures 10 <= n < 100 ==> |Decimal(n)| == 2
    ensures 100 <= n < 1000 ==> |Decimal(n)| == 3
  {
    if n >= 10 {
      assert |Decimal(n)| == |Decimal(n / 10)| + 1;
      if n >= 100 {
        assert |Decimal(n / 10)| == |Decimal(n / 100)| + 1;
      }
    }
  }

  // ----- hexadecimal -----

  predicate IsLowerHexDigit(c: char) { '0' <= c <= '9' || 'a' <= c <= 'f' }

  predicate IsHexDigit(c: char) { '0' <= c <= '9' || 'a' <= c <= 'f' || 'A' <= c <= 'F' }

  function HexDigitValue(c: char): (d: nat)
    requires IsHexDigit(c)
    ensures d < 16
  {
    if '0' <= c <= '9' then (c as int) - ('0' as int)
    else if 'a' <= c <= 'f' then (c as int) - ('a' as int) + 10
    else (c as int) - ('A' as int) + 10
  }

  /** Lower-case hexadecimal digit, as "%x" prints it. */
  function HexDigitChar(d: nat): (c: char)
    requires d < 16
    ensures IsLowerHexDigit(c) && HexDigitValue(c) == d
  {
    if d < 10 then (('0' as int) + d) as char else (('a' as int) + d - 10) as char
  }

  predicate AllLowerHex(s: string) { forall i :: 0 <= i < |s| ==> IsLowerHexDigit(s[i]) }

  /** Hexadecimal rendering without leading zeros ("{:x}"). */
  function Hex(n: nat): (s: string)
    ensures |s| >= 1 && AllLowerHex(s)
  {
    if n < 16 then [HexDigitChar(n)] else Hex(n / 16) + [HexDigitChar(n % 16)]
  }

  function HexValue(s: string): nat
    requires forall i :: 0 <= i < |s| ==> IsHexDigit(s[i])
  {
    if s == [] then 0 else HexValue(s[..|s| - 1]) * 16 + HexDigitValue(s[|s| - 1])
  }

  lemma {:induction false} HexRoundTrip(n: nat)
    ensures HexValue(Hex(n)) == n
  {
    if n >= 16 {
      var s := Hex(n);
      assert s[..|s| - 1] == Hex(n / 16);
      HexRoundTrip(n / 16);
    }
  }

  lemma {:induction false} HexNoLeadingZero(n: nat)
    ensures Hex(n)[0] == '0' <==> n == 0
  {
    if n >= 16 {
      HexNoLeadingZero(n / 16);
    }
  }

  /** A 16-bit value takes one to four hexadecimal digits. */
  lemma HexLength16(n: nat)
    requires n < 0x1_0000
    ensures 1 <= |Hex(n)| <= 4
  {
    if n >= 16 {
      assert |Hex(n)| == |Hex(n / 16)| + 1;
      if n >= 256 {
        assert |Hex(n / 16)| == |Hex(n / 256)| + 1;
        if n >= 4096 {
          assert |Hex(n / 256)| == |Hex(n / 4096)| + 1;
        }
      }
    }
  }

  /** Exactly four lower-case hexadecimal digits, zero padded ("%04zx"). */
  function Hex4(n: nat): (s: string)
    requires n < 0x1_0000
    ensures |s| == 4 && AllLowerHex(s)
  {
    [HexDigitChar(n / 4096), HexDigitChar(n / 256 % 16), HexDigitChar(n / 16 % 16), HexDigitChar(n % 16)]
  }

  lemma Hex4RoundTrip(n: nat)
    requires n < 0x1_0000
    ensures HexValue(Hex4(n)) == n
  {
    var s := Hex4(n);
    var n1, n2, n3 := n / 16, n / 256, n / 4096;
    assert n1 / 16 == n2 && n2 / 16 == n3 && n3 < 16;
    assert HexValue(s[..1]) == n3 by { assert s[..1][..0] == []; }
    assert HexValue(s[..2]) == n3 * 16 + n2 % 16 by { assert s[..2][..1] == s[..1]; }
    assert HexValue(s[..2]) == n2;
    assert HexValue(s[..3]) == n2 * 16 + n1 % 16 by { assert s[..3][..2] == s[..2]; }
    assert HexValue(s[..3]) == n1;
    assert s[..4][..3] == s[..3] && s[..4] == s;
  }

  // ----- splitting and joining -----

  /** The pieces between occurrences of the separator, as android::base::Split returns them. */
  function Split(s: string, sep: char): (parts: seq<string>)
    ensures |parts| >= 1
  {
    if s == [] then [[]]
    else
      var rest := Split(s[1..], sep);
      if s[0] == sep then [[]] + rest else [[s[0]] + rest[0]] + rest[1..]
  }

  function Join(parts: seq<string>, sep: char): string
    requires |parts| >= 1
  {
    if |parts| == 1 then parts[0] else parts[0] + [sep] + Join(parts[1..], sep)
  }

  predicate NoSep(parts: seq<string>, sep: char)
  {
    forall i :: 0 <= i < |parts| ==> sep !in parts[i]
  }

  lemma {:induction false} SplitNoSep(s: string, sep: char)
    ensures NoSep(Split(s, sep), sep)
  {
    if s != [] {
      SplitNoSep(s[1..], sep);
      var rest := Split(s[1..], sep);
      if s[0] != sep {
        assert forall i :: 1 <= i < |rest| ==> rest[1..][i - 1] == rest[i];
      }
    }
  }

  /** Joining the pieces again gives back the string. */
  lemma {:induction false} JoinSplit(s: string, sep: char)
    ensures Join(Split(s, sep), sep) == s
  {
    if s != [] {
      JoinSplit(s[1..], sep);
      var rest := Split(s[1..], sep);
      if s[0] == sep {
        assert Split(s, sep)[1..] == rest;
      } else {
        var parts := Split(s, sep);
        if |rest| == 1 {
          assert parts == [[s[0]] + rest[0]];
        } else {
          assert parts[1..] == rest[1..];
          assert Join(rest, sep) == rest[0] + [sep] + Join(rest[1..], sep);
        }
      }
    }
  }

  /** Splitting a join of separator-free pieces gives back the pieces. */
  lemma {:induction false} SplitJoin(parts: seq<string>, sep: char)
    requires |parts| >= 1 && NoSep(parts, sep)
    ensures Split(Join(parts, sep), sep) == parts
  {
    if |parts| == 1 {
      SplitOfNoSep(parts[0], sep);
    } else {
      SplitJoin(parts[1..], sep);
      SplitPrefix(parts[0], Join(parts[1..], sep), sep);
      assert [parts[0]] + parts[1..] == parts;
    }
  }

  lemma {:induction false} SplitOfNoSep(p: string, sep: char)
    requires sep !in p
    ensures Split(p, sep) == [p]
  {
    if p != [] {
      SplitOfNoSep(p[1..], sep);
      assert [p[0]] + p[1..] == p;
    }
  }

  /** A separator-free prefix followed by the separator is the first piece. */
  lemma {:induction false} SplitPrefix(p: string, t: string, sep: char)
    requires sep !in p
    ensures Split(p + [sep] + t, sep) == [p] + Split(t, sep)
  {
    if p == [] {
      assert p + [sep] + t == [sep] + t;
      assert ([sep] + t)[1..] == t;
    } else {
      SplitPrefix(p[1..], t, sep);
      assert (p + [sep] + t)[1..] == p[1..] + [sep] + t;
      assert [p[0]] + p[1..] == p;
    }
  }

  lemma {:induction false} JoinSnoc(parts: seq<string>, last: string, sep: char)
    requires |parts| >= 1
    ensures Join(parts + [last], sep) == Join(parts, sep) + [sep] + last
  {
    if |parts| > 1 {
      assert (parts + [last])[1..] == parts[1..] + [last];
      JoinSnoc(parts[1..], last, sep);
    }
  }

  /** The length of a join: the pieces plus one separator between each two. */
  lemma {:induction false} JoinLength(parts: seq<string>, sep: char, lo: nat, hi: nat)
    requires |parts| >= 1
    requires forall i :: 0 <= i < |parts| ==> lo <= |parts[i]| <= hi
    ensures |parts| * lo + |parts| - 1 <= |Join(parts, sep)| <= |parts| * hi + |parts| - 1
  {
    if |parts| > 1 {
      JoinLength(parts[1..], sep, lo, hi);
      assert |Join(parts, sep)| == |parts[0]| + 1 + |Join(parts[1..], sep)|;
      LengthStep(|parts|, lo, hi, |parts[0]|, |Join(parts[1..], sep)|);
    }
  }

  lemma LengthStep(n: int, lo: int, hi: int, a: int, m: int)
    requires n >= 2 && lo <= a <= hi
    requires (n - 1) * lo + n - 2 <= m <= (n - 1) * hi + n - 2
    ensures n * lo + n - 1 <= a + 1 + m <= n * hi + n - 1
  {
    assert n * lo == lo + (n - 1) * lo;
    assert n * hi == hi + (n - 1) * hi;
  }

  // ----- searching -----

  /** The position of the last occurrence of `c` among the first `n` characters. */
  function LastIndexBefore(s: string, c: char, n: nat): (r: Option<nat>)
    requires n <= |s|
    ensures r.Some? ==> r.value < n && s[r.value] == c && forall j :: r.value < j < n ==> s[j] != c
    ensures r.None? ==> forall j :: 0 <= j < n ==> s[j] != c
  {
    if n == 0 then None
    else if s[n - 1] == c then Some(n - 1)
    else LastIndexBefore(s, c, n - 1)
  }

  /** The position of the last occurrence of `c` in `s` (std::string::rfind). */
  function LastIndex(s: string, c: char): (r: Option<nat>)
    ensures r.Some? ==> r.value < |s| && s[r.value] == c && c !in s[r.value + 1..]
    ensures r.None? <==> c !in s
  {
    LastIndexBefore(s, c, |s|)
  }

  /** The position of the first occurrence of `c` from position `i` on. */
  function IndexFrom(s: string, c: char, i: nat): (r: Option<nat>)
    requires i <= |s|
    ensures r.Some? ==> i <= r.value < |s| && s[r.value] == c && forall j :: i <= j < r.value ==> s[j] != c
    ensures r.None? ==> forall j :: i <= j < |s| ==> s[j] != c
    decreases |s| - i
  {
    if i == |s| then None
    else if s[i] == c then Some(i)
    else IndexFrom(s, c, i + 1)
  }

  /** The position of the first occurrence of `c` in `s` (std::string::find). */
  function IndexOf(s: string, c: char): (r: Option<nat>)
    ensures r.Some? ==> r.value < |s| && s[r.value] == c && c !in s[..r.value]
    ensures r.None? <==> c !in s
  {
    IndexFrom(s, c, 0)
  }

  /** The last occurrence is found right before a separator-free tail. */
  lemma LastIndexBeforeTail(x: string, c: char, t: string)
    requires c !in t
    ensures LastIndex(x + [c] + t, c) == Some(|x|)
  {
    var s := x + [c] + t;
    assert s[|x|] == c;
    assert forall j :: |x| < j < |s| ==> s[j] == t[j - |x| - 1];
  }

  /** The first occurrence is found right after a separator-free head. */
  lemma IndexOfAfterHead(h: string, c: char, t: string)
    requires c !in h
    ensures IndexOf(h + [c] + t, c) == Some(|h|)
  {
    var s := h + [c] + t;
    assert s[|h|] == c;
    assert forall j :: 0 <= j < |h| ==> s[j] == h[j];
  }
}
