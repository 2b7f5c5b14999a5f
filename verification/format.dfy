/** The text renderings the handlers build with `fmt`: decimal numbers (`%d`), dotted-quad
    addresses (`net.IP.String`, `%v`) and colon-separated hardware addresses
    (`net.HardwareAddr.String`). Each rendering is proved injective, so a message or URL
    built from it names its inputs unambiguously. */
module Format {
  import opened Wrappers
  import opened Net

  predicate IsDigit(c: char)
  {
    '0' <= c <= '9'
  }

  function DigitChar(d: nat): (c: char)
    requires d < 10
    ensures IsDigit(c)
  {
    ('0' as int + d) as char
  }

  function DigitValue(c: char): (d: nat)
    requires IsDigit(c)
    ensures d < 10
  {
    c as int - '0' as int
  }

  predicate AllDigits(s: string)
  {
    forall i :: 0 <= i < |s| ==> IsDigit(s[i])
  }

  /** Shortest decimal rendering of a natural number, as `strconv.Itoa` writes it. */
  function DecimalString(n: nat): (s: string)
    ensures |s| >= 1 && AllDigits(s)
    ensures |s| > 1 ==> s[0] != '0'
  {
    if n < 10 then [DigitChar(n)] else DecimalString(n / 10) + [DigitChar(n % 10)]
  }

  /** Reads a run of decimal digits back as a number: the inverse of `DecimalString`. */
  function ParseDecimal(s: string): nat
    requires AllDigits(s)
  {
    if |s| == 0 then 0 else ParseDecimal(s[..|s| - 1]) * 10 + DigitValue(s[|s| - 1])
  }

  lemma {:induction false} ParseDecimalString(n: nat)
    ensures ParseDecimal(DecimalString(n)) == n
  {
    if n >= 10 {
      var s := DecimalString(n);
      assert s[..|s| - 1] == DecimalString(n / 10);
      ParseDecimalString(n / 10);
    }
  }

  lemma DecimalStringInjective(n: nat, m: nat)
    ensures DecimalString(n) == DecimalString(m) ==> n == m
  {
    ParseDecimalString(n);
    ParseDecimalString(m);
  }

  /** `%d` of a Go `int`. */
  function IntString(i: int): (s: string)
    ensures |s| >= 1
    ensures s[0] == '-' <==> i < 0
    ensures forall k :: 0 <= k < |s| ==> IsDigit(s[k]) || s[k] == '-'
  {
    if i < 0 then "-" + DecimalString(-i) else DecimalString(i)
  }

  lemma IntStringInjective(i: int, j: int)
    ensures IntString(i) == IntString(j) ==> i == j
  {
    if IntString(i) == IntString(j) {
      if i < 0 {
        assert IntString(i)[1..] == DecimalString(-i) && IntString(j)[1..] == DecimalString(-j);
        DecimalStringInjective(-i, -j);
      } else {
        DecimalStringInjective(i, j);
      }
    }
  }

  /** One octet in decimal; never contains a dot or a space. */
  function OctetString(o: Byte): (s: string)
    ensures |s| >= 1 && AllDigits(s)
  {
    DecimalString(o as int)
  }

  /** `x.y` */
  function Dot(x: string, y: string): string
  {
    x + "." + y
  }

  /** `net.IP.String` of an IPv4 address: four decimal octets joined by dots. */
  function IPString(ip: IPv4): (s: string)
    ensures |s| >= 1 && IsDigit(s[0])
    ensures forall i :: 0 <= i < |s| ==> IsDigit(s[i]) || s[i] == '.'
  {
    Dot(OctetString(ip[0]), Dot(OctetString(ip[1]), Dot(OctetString(ip[2]), OctetString(ip[3]))))
  }

  /** Strings split at their first occurrence of `sep`: equal strings have equal halves. */
  lemma SplitAtSeparator(x: string, y: string, x': string, y': string, sep: char)
    requires sep !in x && sep !in x'
    requires x + [sep] + y == x' + [sep] + y'
    ensures x == x' && y == y'
  {
    var s := x + [sep] + y;
    assert forall i :: 0 <= i < |x| ==> s[i] == x[i] != sep;
    assert forall i :: 0 <= i < |x'| ==> s[i] == x'[i] != sep;
    assert s[|x|] == sep && s[|x'|] == sep;
    assert x == s[..|x|] == x';
    assert y == s[|x| + 1..] == y';
  }

  lemma DotInjective(x: string, y: string, x': string, y': string)
    requires AllDigits(x) && AllDigits(x')
    requires Dot(x, y) == Dot(x', y')
    ensures x == x' && y == y'
  {
    assert '.' !in x && '.' !in x';
    SplitAtSeparator(x, y, x', y', '.');
  }

  lemma OctetStringInjective(a: Byte, b: Byte)
    requires OctetString(a) == OctetString(b)
    ensures a == b
  {
    DecimalStringInjective(a as int, b as int);
  }

  lemma IPStringInjective(a: IPv4, b: IPv4)
    ensures IPString(a) == IPString(b) ==> a == b
  {
    if IPString(a) == IPString(b) {
      var o := OctetString;
      DotInjective(o(a[0]), Dot(o(a[1]), Dot(o(a[2]), o(a[3]))), o(b[0]), Dot(o(b[1]), Dot(o(b[2]), o(b[3]))));
      DotInjective(o(a[1]), Dot(o(a[2]), o(a[3])), o(b[1]), Dot(o(b[2]), o(b[3])));
      DotInjective(o(a[2]), o(a[3]), o(b[2]), o(b[3]));
      OctetStringInjective(a[0], b[0]);
      OctetStringInjective(a[1], b[1]);
      OctetStringInjective(a[2], b[2]);
      OctetStringInjective(a[3], b[3]);
      assert a == [a[0], a[1], a[2], a[3]] == [b[0], b[1], b[2], b[3]] == b;
    }
  }

  /** `%v` of a possibly nil `net.IP`: a nil address shows as `<nil>`, which no address
      rendering resembles; neither contains a space. */
  function ShowIP(o: Option<IPv4>): (s: string)
    ensures |s| > 0 && (IsDigit(s[0]) <==> o.Some?)
    ensures ' ' !in s
  {
    match o
    case None => "<nil>"
    case Some(ip) => IPString(ip)
  }

  lemma ShowIPInjective(a: Option<IPv4>, b: Option<IPv4>)
    ensures ShowIP(a) == ShowIP(b) ==> a == b
  {
    if a.Some? && b.Some? {
      IPStringInjective(a.value, b.value);
    }
  }

  const HexDigits: string := "0123456789abcdef"

  /** The two lower-case hex digits of one octet. */
  function HexPair(b: Byte): string
  {
    [HexDigits[(b >> 4) as int], HexDigits[(b & 0xf) as int]]
  }

  lemma HexDigitsDistinct(i: nat, j: nat)
    requires i < 16 && j < 16 && HexDigits[i] == HexDigits[j]
    ensures i == j
  {
  }

  lemma HexPairInjective(a: Byte, b: Byte)
    ensures HexPair(a) == HexPair(b) ==> a == b
  {
    if HexPair(a) == HexPair(b) {
      HexDigitsDistinct((a >> 4) as int, (b >> 4) as int);
      HexDigitsDistinct((a & 0xf) as int, (b & 0xf) as int);
      assert a >> 4 == b >> 4 && a & 0xf == b & 0xf;
    }
  }

  /** `net.HardwareAddr.String`: hex pairs separated by colons, "" for an empty address. */
  function MacString(mac: seq<Byte>): (s: string)
    ensures |mac| == 0 ==> s == ""
    ensures |mac| > 0 ==> |s| == 3 * |mac| - 1
  {
    if |mac| == 0 then "" else HexPair(mac[0]) + ColonPairs(mac[1..])
  }

  function ColonPairs(mac: seq<Byte>): (s: string)
    ensures |s| == 3 * |mac|
  {
    if |mac| == 0 then "" else ":" + HexPair(mac[0]) + ColonPairs(mac[1..])
  }

  lemma {:induction false} ColonPairsInjective(a: seq<Byte>, b: seq<Byte>)
    ensures ColonPairs(a) == ColonPairs(b) ==> a == b
  {
    if ColonPairs(a) == ColonPairs(b) && |a| > 0 {
      var s := ColonPairs(a);
      assert |b| == |a|;
      assert HexPair(a[0]) == s[1..3] == HexPair(b[0]);
      assert ColonPairs(a[1..]) == s[3..] == ColonPairs(b[1..]);
      HexPairInjective(a[0], b[0]);
      ColonPairsInjective(a[1..], b[1..]);
      assert a == [a[0]] + a[1..] == [b[0]] + b[1..] == b;
    }
  }

  lemma MacStringInjective(a: seq<Byte>, b: seq<Byte>)
    ensures MacString(a) == MacString(b) ==> a == b
  {
    if MacString(a) == MacString(b) && |a| > 0 {
      var s := MacString(a);
      assert |b| == |a|;
      assert HexPair(a[0]) == s[..2] == HexPair(b[0]);
      assert ColonPairs(a[1..]) == s[2..] == ColonPairs(b[1..]);
      HexPairInjective(a[0], b[0]);
      ColonPairsInjective(a[1..], b[1..]);
      assert a == [a[0]] + a[1..] == [b[0]] + b[1..] == b;
    }
  }
}
