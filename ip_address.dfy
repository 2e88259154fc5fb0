/**
 * IPv4 addresses as the resolver returns them (dotted-quad text) and the sort
 * key the report uses: `tuple(map(int, ip.split('.')))`, compared the way
 * Python compares tuples.
 */
module IpAddress {
  import opened Wrappers

  type Octet = n: int | 0 <= n < 256

  datatype Ipv4 = Ipv4(a: Octet, b: Octet, c: Octet, d: Octet)

  function Octets(ip: Ipv4): seq<int> {
    [ip.a, ip.b, ip.c, ip.d]
  }

  /** Python's `<=` on tuples of integers: lexicographic, a proper prefix first. */
  predicate TupleLe(x: seq<int>, y: seq<int>)
    decreases |x|
  {
    x == [] || (y != [] && (x[0] < y[0] || (x[0] == y[0] && TupleLe(x[1..], y[1..]))))
  }

  /** Order of two addresses under the report's sort key. */
  predicate IpLe(x: Ipv4, y: Ipv4) {
    TupleLe(Octets(x), Octets(y))
  }

  /** The address as one 32-bit number, most significant octet first. */
  function Value(ip: Ipv4): (v: int)
    ensures 0 <= v < 0x1_0000_0000
  {
    ip.a * 0x100_0000 + ip.b * 0x1_0000 + ip.c * 0x100 + ip.d
  }

  lemma TupleLeOctets(x: Ipv4, y: Ipv4)
    ensures IpLe(x, y) <==>
      x.a < y.a || (x.a == y.a && (x.b < y.b || (x.b == y.b && (x.c < y.c || (x.c == y.c && x.d <= y.d)))))
  {
    assert TupleLe([x.d], [y.d]) <==> x.d <= y.d by {
      assert [x.d][1..] == [];
    }
    assert TupleLe([x.c, x.d], [y.c, y.d]) <==> x.c < y.c || (x.c == y.c && x.d <= y.d) by {
      assert [x.c, x.d][1..] == [x.d] && [y.c, y.d][1..] == [y.d];
    }
    assert TupleLe([x.b, x.c, x.d], [y.b, y.c, y.d]) <==>
        x.b < y.b || (x.b == y.b && TupleLe([x.c, x.d], [y.c, y.d])) by {
      assert [x.b, x.c, x.d][1..] == [x.c, x.d] && [y.b, y.c, y.d][1..] == [y.c, y.d];
    }
    assert Octets(x)[1..] == [x.b, x.c, x.d] && Octets(y)[1..] == [y.b, y.c, y.d];
  }

  /** Comparing the octet tuples is comparing the addresses as numbers. */
  lemma IpLeIsNumeric(x: Ipv4, y: Ipv4)
    ensures IpLe(x, y) <==> Value(x) <= Value(y)
  {
    TupleLeOctets(x, y);
  }

  /** The key order is a total order on addresses. */
  lemma IpLeTotalOrder(x: Ipv4, y: Ipv4, z: Ipv4)
    ensures IpLe(x, x)
    ensures IpLe(x, y) || IpLe(y, x)
    ensures IpLe(x, y) && IpLe(y, x) ==> x == y
    ensures IpLe(x, y) && IpLe(y, z) ==> IpLe(x, z)
  {
    TupleLeOctets(x, x);
    TupleLeOctets(x, y);
    TupleLeOctets(y, x);
    TupleLeOctets(y, z);
    TupleLeOctets(x, z);
  }

  /** The numeric order puts 9.255.255.255 before 10.0.0.1, unlike a comparison of the texts. */
  lemma NumericNotTextual()
    ensures IpLe(Ipv4(9, 255, 255, 255), Ipv4(10, 0, 0, 1))
    ensures !IpLe(Ipv4(10, 0, 0, 1), Ipv4(9, 255, 255, 255))
  {
    TupleLeOctets(Ipv4(9, 255, 255, 255), Ipv4(10, 0, 0, 1));
    TupleLeOctets(Ipv4(10, 0, 0, 1), Ipv4(9, 255, 255, 255));
  }

  predicate IsDigit(c: char) {
    '0' <= c <= '9'
  }

  predicate AllDigits(s: string) {
    forall i :: 0 <= i < |s| ==> IsDigit(s[i])
  }

  function DigitChar(n: int): (c: char)
    requires 0 <= n < 10
    ensures IsDigit(c) && c as int - '0' as int == n
  {
    ('0' as int + n) as char
  }

  /** `str(n)`: decimal digits without leading zeros. */
  function Decimal(n: nat): (s: string)
    ensures 1 <= |s| && AllDigits(s)
    ensures n < 10 ==> |s| == 1
    ensures n < 100 ==> |s| <= 2
    ensures n < 1000 ==> |s| <= 3
    decreases n
  {
    if n < 10 then [DigitChar(n)] else Decimal(n / 10) + [DigitChar(n % 10)]
  }

  /** The value of a string of decimal digits. */
  function DigitsValue(s: string): nat
    requires AllDigits(s)
  {
    if s == [] then 0
    else DigitsValue(s[..|s| - 1]) * 10 + (s[|s| - 1] as int - '0' as int)
  }

  /** `int(s)` on the parts of an address; `None` where `int` would raise. */
  function ParseInt(s: string): Option<int> {
    if s != [] && AllDigits(s) then Some(DigitsValue(s)) else None
  }

  lemma {:induction false} DecimalRoundTrip(n: nat)
    ensures ParseInt(Decimal(n)) == Some(n)
    decreases n
  {
    var s := Decimal(n);
    if n < 10 {
      assert s[..0] == [];
    } else {
      DecimalRoundTrip(n / 10);
      assert s[..|s| - 1] == Decimal(n / 10);
      assert DigitsValue(s) == (n / 10) * 10 + n % 10;
    }
  }

  /** `sep.join(parts)`. */
  function Join(parts: seq<string>, sep: char): string
    requires |parts| >= 1
  {
    if |parts| == 1 then parts[0] else parts[0] + [sep] + Join(parts[1..], sep)
  }

  /** `s.split(sep)`: the pieces between separators, including empty ones. */
  function Split(s: string, sep: char): (parts: seq<string>)
    ensures |parts| >= 1
    ensures forall i :: 0 <= i < |parts| ==> sep !in parts[i]
    ensures Join(parts, sep) == s
  {
    if s == [] then [[]]
    else
      var rest := Split(s[1..], sep);
      if s[0] == sep then
        assert [s[0]] + s[1..] == s;
        [[]] + rest
      else
        var parts := [[s[0]] + rest[0]] + rest[1..];
        assert parts[1..] == rest[1..];
        assert forall i :: 1 <= i < |parts| ==> parts[i] == rest[i];
        assert |rest| == 1 ==> Join(parts, sep) == [s[0]] + rest[0];
        assert |rest| > 1 ==> Join(parts, sep) == [s[0]] + (rest[0] + [sep] + Join(rest[1..], sep));
        parts
  }

  lemma {:induction false} SplitWithoutSeparator(x: string, sep: char)
    requires sep !in x
    ensures Split(x, sep) == [x]
    decreases |x|
  {
    if x != [] {
      assert sep !in x[1..];
      SplitWithoutSeparator(x[1..], sep);
      assert [x[0]] + x[1..] == x;
    }
  }

  lemma {:induction false} SplitAtFirstSeparator(x: string, y: string, sep: char)
    requires sep !in x
    ensures Split(x + [sep] + y, sep) == [x] + Split(y, sep)
    decreases |x|
  {
    var s := x + [sep] + y;
    if x == [] {
      assert s == [sep] + y;
      assert s[1..] == y;
    } else {
      assert s[1..] == x[1..] + [sep] + y;
      assert sep !in x[1..];
      SplitAtFirstSeparator(x[1..], y, sep);
      assert [x[0]] + x[1..] == x;
    }
  }

  /** Splitting undoes joining when no part contains the separator. */
  lemma {:induction false} SplitJoin(parts: seq<string>, sep: char)
    requires |parts| >= 1
    requires forall i :: 0 <= i < |parts| ==> sep !in parts[i]
    ensures Split(Join(parts, sep), sep) == parts
    decreases |parts|
  {
    if |parts| == 1 {
      SplitWithoutSeparator(parts[0], sep);
    } else {
      assert forall i :: 0 <= i < |parts[1..]| ==> parts[1..][i] == parts[i + 1];
      SplitJoin(parts[1..], sep);
      SplitAtFirstSeparator(parts[0], Join(parts[1..], sep), sep);
      assert [parts[0]] + parts[1..] == parts;
    }
  }

  /** The dotted-quad text `gethostbyname` returns for the address. */
  function Text(ip: Ipv4): (t: string)
    ensures 7 <= |t| <= 15
  {
    Decimal(ip.a) + "." + Decimal(ip.b) + "." + Decimal(ip.c) + "." + Decimal(ip.d)
  }

  /** `tuple(map(int, text.split('.')))`, or `None` where `int` would raise. */
  function SortKey(text: string): Option<seq<int>> {
    ParseAll(Split(text, '.'))
  }

  /** `map(int, parts)` collected into a tuple: fails when some part fails, else one number per part. */
  function ParseAll(parts: seq<string>): (r: Option<seq<int>>)
    ensures r.Some? <==> forall i :: 0 <= i < |parts| ==> ParseInt(parts[i]).Some?
    ensures r.Some? ==> |r.value| == |parts| && forall i :: 0 <= i < |parts| ==> r.value[i] == ParseInt(parts[i]).value
  {
    if parts == [] then Some([])
    else
      var head, tail := ParseInt(parts[0]), ParseAll(parts[1..]);
      assert forall i :: 1 <= i < |parts| ==> parts[i] == parts[1..][i - 1];
      if head.Some? && tail.Some? then Some([head.value] + tail.value) else None
  }

  function Parts(ip: Ipv4): seq<string> {
    [Decimal(ip.a), Decimal(ip.b), Decimal(ip.c), Decimal(ip.d)]
  }

  lemma TextIsJoin(ip: Ipv4)
    ensures Text(ip) == Join(Parts(ip), '.')
  {
    var parts := Parts(ip);
    assert parts[1..][1..][1..] == [Decimal(ip.d)];
    assert parts[1..][1..] == [Decimal(ip.c), Decimal(ip.d)];
    assert parts[1..] == [Decimal(ip.b), Decimal(ip.c), Decimal(ip.d)];
    assert Join(parts[1..][1..], '.') == Decimal(ip.c) + "." + Decimal(ip.d);
    assert Join(parts[1..], '.') == Decimal(ip.b) + "." + (Decimal(ip.c) + "." + Decimal(ip.d));
  }

  lemma ParseParts(ip: Ipv4)
    ensures ParseAll(Parts(ip)) == Some(Octets(ip))
  {
    var da, db, dc, dd := Decimal(ip.a), Decimal(ip.b), Decimal(ip.c), Decimal(ip.d);
    DecimalRoundTrip(ip.a);
    DecimalRoundTrip(ip.b);
    DecimalRoundTrip(ip.c);
    DecimalRoundTrip(ip.d);
    assert [dd][1..] == [];
    assert [ip.d as int] + [] == [ip.d];
    assert ParseAll([dd]) == Some([ip.d]);
    assert [dc, dd][1..] == [dd];
    assert [ip.c as int] + [ip.d as int] == [ip.c, ip.d];
    assert ParseAll([dc, dd]) == Some([ip.c, ip.d]);
    assert [db, dc, dd][1..] == [dc, dd];
    assert [ip.b as int] + [ip.c as int, ip.d as int] == [ip.b, ip.c, ip.d];
    assert ParseAll([db, dc, dd]) == Some([ip.b, ip.c, ip.d]);
    assert [ip.a as int] + [ip.b as int, ip.c as int, ip.d as int] == Octets(ip);
    assert Parts(ip)[1..] == [db, dc, dd];
  }

  /**
   * The script sorts by the key computed from the address text; for every
   * address that key is exactly its four octets, so `IpLe` is the script's order.
   */
  lemma SortKeyOfText(ip: Ipv4)
    ensures SortKey(Text(ip)) == Some(Octets(ip))
  {
    var parts := Parts(ip);
    forall i | 0 <= i < |parts| ensures '.' !in parts[i] {
      assert AllDigits(parts[i]);
    }
    TextIsJoin(ip);
    SplitJoin(parts, '.');
    ParseParts(ip);
  }

  /** Distinct addresses have distinct texts. */
  lemma TextInjective(x: Ipv4, y: Ipv4)
    requires Text(x) == Text(y)
    ensures x == y
  {
    SortKeyOfText(x);
    SortKeyOfText(y);
    assert Octets(x) == Octets(y);
    assert Octets(x)[0] == x.a && Octets(y)[0] == y.a;
  }
}
