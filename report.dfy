/**
 * The report assembled by `main`: the rows of the domains that resolved, in
 * input order; those rows stably sorted by address; the width of the domain
 * column; and the printed lines.
 * DNS is the map `dns` (a domain missing from it does not resolve) and RDAP
 * is the map `rdap` (an address missing from it is a failed lookup).
 */
module Report {
  import opened Wrappers
  import opened DomainList
  import opened Ownership
  import opened IpAddress

  /** A row of the report: `(domain, ip, owner)`. */
  datatype Row = Row(domain: string, ip: Ipv4, owner: string)

  /** The ways the script stops with exit status 1. */
  datatype RunError = FileNotFound | NoDomainsFound | NoDomainResolved

  /** What `main` prints: the sorted rows, the domain column width and the lines. */
  datatype Table = Table(rows: seq<Row>, domainWidth: nat, lines: seq<string>)

  /** `resolve_domain`: the address of a domain that resolves, nothing for one that does not. */
  function Resolve(dns: map<string, Ipv4>, domain: string): (ip: Option<Ipv4>)
    ensures ip.Some? <==> domain in dns
    ensures ip.Some? ==> ip.value == dns[domain]
  {
    if domain in dns then Some(dns[domain]) else None
  }

  /**
   * `get_ip_owner` with null contacts treated as missing (see
   * `OwnerOfAsWritten` for when this is the script's answer): never empty,
   * and "Unknown" for an address whose lookup failed.
   */
  function OwnerOf(rdap: map<Ipv4, RdapRecord>, ip: Ipv4): (owner: string)
    ensures owner != ""
    ensures ip !in rdap ==> owner == Unknown
  {
    Owner(if ip in rdap then Some(rdap[ip]) else None)
  }

  /** No object of the address's record has a contact stored as null. */
  predicate NoNullContacts(rdap: map<Ipv4, RdapRecord>, ip: Ipv4) {
    ip in rdap ==> forall i :: 0 <= i < |rdap[ip].objects| ==> !rdap[ip].objects[i].contact.NullContact?
  }

  /**
   * The owner in the report is the script's own answer whenever the RDAP
   * record has no null contact; `NullContactCounterexample` shows the one way
   * the two differ.
   */
  lemma OwnerOfAsWritten(rdap: map<Ipv4, RdapRecord>, ip: Ipv4)
    requires NoNullContacts(rdap, ip)
    ensures OwnerOf(rdap, ip) == OwnerAsWritten(if ip in rdap then Some(rdap[ip]) else None)
  {
    AsWrittenAgreesWithoutNullContacts(if ip in rdap then Some(rdap[ip]) else None);
  }

  /** The row `main` appends for a domain that resolved: the domain, its address, the address's owner. */
  function RowFor(domain: string, dns: map<string, Ipv4>, rdap: map<Ipv4, RdapRecord>): Row
    requires domain in dns
  {
    Row(domain, dns[domain], OwnerOf(rdap, dns[domain]))
  }

  /**
   * The rows the loop of `main` has appended after the given domains: the
   * rows of the earlier domains, then this domain's row if it resolved.
   */
  function Collect(domains: seq<string>, dns: map<string, Ipv4>, rdap: map<Ipv4, RdapRecord>): (rows: seq<Row>)
    ensures |rows| <= |domains|
  {
    if domains == [] then []
    else
      var d := domains[|domains| - 1];
      Collect(domains[..|domains| - 1], dns, rdap) + (if d in dns then [RowFor(d, dns, rdap)] else [])
  }

  /** One more turn of the loop: the row of the next domain, if it resolves, goes at the end. */
  lemma CollectStep(domains: seq<string>, i: nat, dns: map<string, Ipv4>, rdap: map<Ipv4, RdapRecord>)
    requires i < |domains|
    ensures Collect(domains[..i + 1], dns, rdap) ==
      Collect(domains[..i], dns, rdap) + (if domains[i] in dns then [RowFor(domains[i], dns, rdap)] else [])
  {
    assert domains[..i + 1][..i] == domains[..i];
  }

  /**
   * Every row belongs to a domain of the list that resolved, and holds that
   * domain's own address and owner.
   */
  lemma {:induction false} CollectSound(domains: seq<string>, dns: map<string, Ipv4>, rdap: map<Ipv4, RdapRecord>)
    ensures forall k :: 0 <= k < |Collect(domains, dns, rdap)| ==>
      var row := Collect(domains, dns, rdap)[k];
      row.domain in domains && row.domain in dns && row == RowFor(row.domain, dns, rdap)
  {
    if domains != [] {
      var init := domains[..|domains| - 1];
      CollectSound(init, dns, rdap);
      assert forall d :: d in init ==> d in domains;
    }
  }

  /** The position of the row of a domain that resolves. */
  lemma {:induction false} CollectIndex(domains: seq<string>, dns: map<string, Ipv4>, rdap: map<Ipv4, RdapRecord>, i: nat)
    returns (k: nat)
    requires i < |domains| && domains[i] in dns
    ensures k < |Collect(domains, dns, rdap)| && Collect(domains, dns, rdap)[k].domain == domains[i]
  {
    var init := domains[..|domains| - 1];
    var d := domains[|domains| - 1];
    var prev := Collect(init, dns, rdap);
    assert Collect(domains, dns, rdap) == prev + (if d in dns then [RowFor(d, dns, rdap)] else []);
    if i < |init| {
      assert init[i] == domains[i];
      k := CollectIndex(init, dns, rdap, i);
    } else {
      k := |prev|;
    }
  }

  /** Some row is about `domain`. */
  predicate HasRow(rows: seq<Row>, domain: string) {
    exists k :: 0 <= k < |rows| && rows[k].domain == domain
  }

  /** Every domain of the list that resolves has a row. */
  lemma CollectComplete(domains: seq<string>, dns: map<string, Ipv4>, rdap: map<Ipv4, RdapRecord>)
    ensures forall i :: 0 <= i < |domains| && domains[i] in dns ==> HasRow(Collect(domains, dns, rdap), domains[i])
  {
    forall i | 0 <= i < |domains| && domains[i] in dns
      ensures HasRow(Collect(domains, dns, rdap), domains[i])
    {
      var k := CollectIndex(domains, dns, rdap, i);
    }
  }

  /** Each domain is handled on its own: an unresolved one does not stop those after it. */
  lemma {:induction false} CollectAppend(a: seq<string>, b: seq<string>, dns: map<string, Ipv4>, rdap: map<Ipv4, RdapRecord>)
    ensures Collect(a + b, dns, rdap) == Collect(a, dns, rdap) + Collect(b, dns, rdap)
    decreases |b|
  {
    if b == [] {
      assert a + b == a;
    } else {
      var ab := a + b;
      var b', d := b[..|b| - 1], b[|b| - 1];
      assert ab[..|ab| - 1] == a + b';
      assert ab[|ab| - 1] == d;
      CollectAppend(a, b', dns, rdap);
      var extra := if d in dns then [RowFor(d, dns, rdap)] else [];
      assert Collect(ab, dns, rdap) == Collect(ab[..|ab| - 1], dns, rdap) + extra;
      assert Collect(b, dns, rdap) == Collect(b[..|b| - 1], dns, rdap) + extra;
    }
  }

  lemma {:induction false} CollectOrderPair(domains: seq<string>, dns: map<string, Ipv4>, rdap: map<Ipv4, RdapRecord>, i: int, j: int)
    requires NoDuplicates(domains)
    requires 0 <= i < j < |Collect(domains, dns, rdap)|
    ensures FirstIndex(domains, Collect(domains, dns, rdap)[i].domain) < FirstIndex(domains, Collect(domains, dns, rdap)[j].domain)
  {
    var init := domains[..|domains| - 1];
    var d := domains[|domains| - 1];
    var prev := Collect(init, dns, rdap);
    var rows := Collect(domains, dns, rdap);
    assert domains == init + [d];
    assert rows == if d in dns then prev + [RowFor(d, dns, rdap)] else prev;
    CollectSound(init, dns, rdap);
    var x := prev[i].domain;
    assert rows[i] == prev[i];
    FirstIndexExtend(init, d, x);
    if j < |prev| {
      var y := prev[j].domain;
      assert rows[j] == prev[j];
      assert NoDuplicates(init) by {
        assert forall k :: 0 <= k < |init| ==> init[k] == domains[k];
      }
      CollectOrderPair(init, dns, rdap, i, j);
      FirstIndexExtend(init, d, y);
    } else {
      assert rows[j].domain == d;
      assert d !in init by {
        forall k | 0 <= k < |init| ensures init[k] != d {
          assert init[k] == domains[k];
        }
      }
      FirstIndexExtend(init, d, d);
    }
  }

  /** The rows keep the input order of their domains, each domain at most once. */
  lemma CollectInInputOrder(domains: seq<string>, dns: map<string, Ipv4>, rdap: map<Ipv4, RdapRecord>)
    requires NoDuplicates(domains)
    ensures forall i, j :: 0 <= i < j < |Collect(domains, dns, rdap)| ==>
      FirstIndex(domains, Collect(domains, dns, rdap)[i].domain) < FirstIndex(domains, Collect(domains, dns, rdap)[j].domain)
  {
    forall i, j | 0 <= i < j < |Collect(domains, dns, rdap)| {
      CollectOrderPair(domains, dns, rdap, i, j);
    }
  }

  predicate SortedByIp(rows: seq<Row>) {
    forall i, j :: 0 <= i < j < |rows| ==> IpLe(rows[i].ip, rows[j].ip)
  }

  /** The rows carrying address `ip`, in their order. */
  function WithIp(rows: seq<Row>, ip: Ipv4): seq<Row> {
    if rows == [] then []
    else (if rows[0].ip == ip then [rows[0]] else []) + WithIp(rows[1..], ip)
  }

  /** `WithIp` selects exactly the rows with that address. */
  lemma {:induction false} WithIpMembers(rows: seq<Row>, ip: Ipv4)
    ensures forall r :: r in WithIp(rows, ip) <==> r in rows && r.ip == ip
  {
    if rows != [] {
      WithIpMembers(rows[1..], ip);
      assert rows == [rows[0]] + rows[1..];
    }
  }

  /** Puts `x` before the first row whose address is not below its own. */
  function Insert(x: Row, s: seq<Row>): (r: seq<Row>)
    ensures |r| == |s| + 1
  {
    if s == [] || IpLe(x.ip, s[0].ip) then [x] + s else [s[0]] + Insert(x, s[1..])
  }

  /** Insertion loses no row and adds none but `x`. */
  lemma {:induction false} InsertPermutes(x: Row, s: seq<Row>)
    ensures multiset(Insert(x, s)) == multiset([x] + s)
  {
    if s != [] && !IpLe(x.ip, s[0].ip) {
      InsertPermutes(x, s[1..]);
      assert s == [s[0]] + s[1..];
    }
  }

  /** Insertion keeps a sorted sequence sorted. */
  lemma {:induction false} InsertSorted(x: Row, s: seq<Row>)
    requires SortedByIp(s)
    ensures SortedByIp(Insert(x, s))
  {
    var r := Insert(x, s);
    if s == [] || IpLe(x.ip, s[0].ip) {
      forall k | 1 <= k < |r| ensures IpLe(x.ip, r[k].ip) {
        IpLeTotalOrder(x.ip, s[0].ip, s[k - 1].ip);
      }
    } else {
      var t := Insert(x, s[1..]);
      assert SortedByIp(s[1..]);
      InsertSorted(x, s[1..]);
      InsertPermutes(x, s[1..]);
      IpLeTotalOrder(x.ip, s[0].ip, x.ip);
      forall k | 0 <= k < |t| ensures IpLe(s[0].ip, t[k].ip) {
        assert t[k] in multiset([x] + s[1..]);
        if t[k] != x {
          assert t[k] in s[1..];
          var m :| 0 <= m < |s[1..]| && s[1..][m] == t[k];
          assert s[m + 1] == t[k];
        }
      }
      assert r == [s[0]] + t;
    }
  }

  /** Insertion puts `x` ahead of the rows with its address and leaves their order alone. */
  lemma {:induction false} InsertStable(x: Row, s: seq<Row>, ip: Ipv4)
    ensures WithIp(Insert(x, s), ip) == WithIp([x] + s, ip)
  {
    var r := Insert(x, s);
    assert ([x] + s)[1..] == s;
    if s != [] && !IpLe(x.ip, s[0].ip) {
      var t := Insert(x, s[1..]);
      InsertStable(x, s[1..], ip);
      IpLeTotalOrder(x.ip, x.ip, x.ip);
      var hx := if x.ip == ip then [x] else [];
      var hs := if s[0].ip == ip then [s[0]] else [];
      assert r == [s[0]] + t && r[1..] == t;
      assert ([x] + s[1..])[1..] == s[1..];
      assert WithIp(r, ip) == hs + WithIp(t, ip);
      assert WithIp(t, ip) == hx + WithIp(s[1..], ip);
      assert WithIp([x] + s, ip) == hx + (hs + WithIp(s[1..], ip));
      assert hx == [] || hs == [];
    }
  }

  /**
   * `results.sort(key=...)` with Python's stable sort: the result is sorted by
   * address, is a rearrangement of the input, and rows with equal addresses
   * keep their input order.
   */
  function StableSort(rows: seq<Row>): (sorted: seq<Row>)
    ensures SortedByIp(sorted)
    ensures multiset(sorted) == multiset(rows)
    ensures forall ip :: WithIp(sorted, ip) == WithIp(rows, ip)
  {
    if rows == [] then []
    else
      var rest := StableSort(rows[1..]);
      InsertSorted(rows[0], rest);
      InsertPermutes(rows[0], rest);
      assert [rows[0]] + rows[1..] == rows;
      assert forall ip :: WithIp(Insert(rows[0], rest), ip) == WithIp(rows, ip) by {
        forall ip ensures WithIp(Insert(rows[0], rest), ip) == WithIp(rows, ip) {
          InsertStable(rows[0], rest, ip);
          assert ([rows[0]] + rest)[1..] == rest;
        }
      }
      Insert(rows[0], rest)
  }

  /** Agreeing on the rows of every address means holding the same rows. */
  lemma SameRows(a: seq<Row>, b: seq<Row>)
    requires forall ip :: WithIp(a, ip) == WithIp(b, ip)
    ensures forall k :: 0 <= k < |b| ==> b[k] in a
    ensures forall k :: 0 <= k < |a| ==> a[k] in b
    ensures a == [] <==> b == []
  {
    forall k | 0 <= k < |b| ensures b[k] in a {
      WithIpMembers(a, b[k].ip);
      WithIpMembers(b, b[k].ip);
    }
    forall k | 0 <= k < |a| ensures a[k] in b {
      WithIpMembers(a, a[k].ip);
      WithIpMembers(b, a[k].ip);
    }
    if b != [] {
      assert b[0] in a;
    }
    if a != [] {
      assert a[0] in b;
    }
  }

  /** Two such sorted sequences start with the same row. */
  lemma SameHead(a: seq<Row>, b: seq<Row>)
    requires SortedByIp(a) && SortedByIp(b) && a != []
    requires forall ip :: WithIp(a, ip) == WithIp(b, ip)
    ensures b != [] && a[0] == b[0]
  {
    SameRows(a, b);
    assert a[0] in b;
    var ip0, ip1 := a[0].ip, b[0].ip;
    var ka :| 0 <= ka < |a| && a[ka] == b[0];
    var kb :| 0 <= kb < |b| && b[kb] == a[0];
    IpLeTotalOrder(ip0, ip1, ip0);
    assert IpLe(ip0, ip1) && IpLe(ip1, ip0);
    assert WithIp(a, ip0) == [a[0]] + WithIp(a[1..], ip0);
    assert WithIp(b, ip0) == [b[0]] + WithIp(b[1..], ip0);
    assert a[0] == WithIp(a, ip0)[0] == WithIp(b, ip0)[0] == b[0];
  }

  /** Dropping the common first row keeps the rows of every address in agreement. */
  lemma TailsAgree(a: seq<Row>, b: seq<Row>, ip: Ipv4)
    requires a != [] && b != [] && a[0] == b[0]
    requires WithIp(a, ip) == WithIp(b, ip)
    ensures WithIp(a[1..], ip) == WithIp(b[1..], ip)
  {
    var h := if a[0].ip == ip then [a[0]] else [];
    assert WithIp(a, ip) == h + WithIp(a[1..], ip);
    assert WithIp(b, ip) == h + WithIp(b[1..], ip);
    assert WithIp(a[1..], ip) == WithIp(a, ip)[|h|..];
  }

  /**
   * Being sorted and stable pins the order down: two sorted sequences that
   * agree on the rows of every address are equal. So `StableSort` is the
   * only possible outcome of the script's sort.
   */
  lemma {:induction false} SortedStableUnique(a: seq<Row>, b: seq<Row>)
    requires SortedByIp(a) && SortedByIp(b)
    requires forall ip :: WithIp(a, ip) == WithIp(b, ip)
    ensures a == b
    decreases |a|
  {
    if a == [] {
      SameRows(a, b);
    } else {
      SameHead(a, b);
      forall ip ensures WithIp(a[1..], ip) == WithIp(b[1..], ip) {
        TailsAgree(a, b, ip);
      }
      SortedStableUnique(a[1..], b[1..]);
      assert a == [a[0]] + a[1..] && b == [b[0]] + b[1..];
    }
  }

  /** `max(len(domain) for domain, _, _ in results)`; `max` of nothing raises, hence the precondition. */
  function MaxDomainLength(rows: seq<Row>): (m: nat)
    requires |rows| > 0
    ensures forall k :: 0 <= k < |rows| ==> |rows[k].domain| <= m
    ensures exists k :: 0 <= k < |rows| && |rows[k].domain| == m
  {
    if |rows| == 1 then |rows[0].domain|
    else
      var m := MaxDomainLength(rows[1..]);
      assert forall k :: 1 <= k < |rows| ==> rows[k] == rows[1..][k - 1];
      if |rows[0].domain| > m then |rows[0].domain| else m
  }

  /** The smallest width of the domain column. */
  const MinDomainWidth: nat := 10

  /** Width of the IP column. */
  const IpWidth: nat := 15

  /**
   * The domain column width: every domain fits, it is at least ten, and it
   * is no wider than the longest domain unless that is shorter than ten.
   */
  function DomainWidth(rows: seq<Row>): (w: nat)
    requires |rows| > 0
    ensures w >= MinDomainWidth
    ensures forall k :: 0 <= k < |rows| ==> |rows[k].domain| <= w
    ensures w == MinDomainWidth || exists k :: 0 <= k < |rows| && |rows[k].domain| == w
  {
    var m := MaxDomainLength(rows);
    if m > MinDomainWidth then m else MinDomainWidth
  }

  /** `f"{s:<{width}}"`: `s` left-aligned in a field of `width` characters, never cut. */
  function PadRight(s: string, width: nat): (r: string)
    ensures |r| == if |s| < width then width else |s|
    ensures r[..|s|] == s
    ensures forall i :: |s| <= i < |r| ==> r[i] == ' '
  {
    if |s| < width then s + seq(width - |s|, _ => ' ') else s
  }

  /** One printed line: domain cell, a space, address cell, a space, owner. */
  function Line(domain: string, ip: string, owner: string, width: nat): string {
    PadRight(domain, width) + " " + PadRight(ip, IpWidth) + " " + owner
  }

  /** The dashed rule under the header. */
  function Separator(width: nat): (rule: string)
    ensures |rule| == width + 35
    ensures forall i :: 0 <= i < |rule| ==> rule[i] == '-'
  {
    seq(width + IpWidth + 20, _ => '-')
  }

  /** The printed lines: header, rule, one line per row in order. */
  function Render(rows: seq<Row>, width: nat): (lines: seq<string>)
    ensures |lines| == |rows| + 2
  {
    [Line("Domain", "IP Address", "Owner", width), Separator(width)]
      + seq(|rows|, k requires 0 <= k < |rows| => Line(rows[k].domain, Text(rows[k].ip), rows[k].owner, width))
  }

  /** When the domain fits the width, every cell starts at the same column. */
  lemma LineLayout(domain: string, ip: string, owner: string, width: nat)
    requires |domain| <= width && |ip| <= IpWidth
    ensures var line := Line(domain, ip, owner, width);
      && |line| == width + IpWidth + 2 + |owner|
      && line[..|domain|] == domain
      && (forall i :: |domain| <= i <= width ==> line[i] == ' ')
      && line[width + 1..width + 1 + |ip|] == ip
      && (forall i :: width + 1 + |ip| <= i <= width + IpWidth + 1 ==> line[i] == ' ')
      && line[width + IpWidth + 2..] == owner
  {
    var line := Line(domain, ip, owner, width);
    var d, p := PadRight(domain, width), PadRight(ip, IpWidth);
    assert line == d + " " + p + " " + owner;
    assert line[..width] == d;
    assert line[width + 1..width + 1 + IpWidth] == p;
    assert line[width + 1..width + 1 + |ip|] == p[..|ip|];
    assert line[width + IpWidth + 2..] == owner;
  }

  /**
   * The printed table: a header and a rule of `width + 35` dashes, then one
   * line per row, in row order, each with the domain in a cell of exactly
   * `width` characters, the address text from column `width + 1` and the
   * owner from column `width + 17`, as in the header.
   */
  lemma RenderAligned(rows: seq<Row>, width: nat)
    requires width >= MinDomainWidth
    requires forall k :: 0 <= k < |rows| ==> |rows[k].domain| <= width
    ensures var lines := Render(rows, width);
      && |lines| == |rows| + 2
      && |lines[1]| == width + 35 && (forall i :: 0 <= i < |lines[1]| ==> lines[1][i] == '-')
      && lines[0][..6] == "Domain" && lines[0][width + 1..width + 11] == "IP Address"
      && lines[0][width + 17..] == "Owner"
      && forall k :: 0 <= k < |rows| ==>
           && lines[k + 2][..width] == PadRight(rows[k].domain, width)
           && |PadRight(rows[k].domain, width)| == width
           && lines[k + 2][width + 1..width + 1 + |Text(rows[k].ip)|] == Text(rows[k].ip)
           && lines[k + 2][width + 17..] == rows[k].owner
  {
    var lines := Render(rows, width);
    LineLayout("Domain", "IP Address", "Owner", width);
    forall k | 0 <= k < |rows|
      ensures lines[k + 2][..width] == PadRight(rows[k].domain, width)
      ensures lines[k + 2][width + 1..width + 1 + |Text(rows[k].ip)|] == Text(rows[k].ip)
      ensures lines[k + 2][width + 17..] == rows[k].owner
    {
      var t := Text(rows[k].ip);
      LineLayout(rows[k].domain, t, rows[k].owner, width);
      assert lines[k + 2] == Line(rows[k].domain, t, rows[k].owner, width);
    }
  }

  /**
   * The loop of `main`: each domain is resolved in turn and, when it
   * resolves, its owner is looked up and a row appended.
   */
  method CollectRows(domains: seq<string>, dns: map<string, Ipv4>, rdap: map<Ipv4, RdapRecord>)
    returns (results: seq<Row>)
    ensures results == Collect(domains, dns, rdap)
  {
    results := [];
    for i := 0 to |domains|
      invariant results == Collect(domains[..i], dns, rdap)
    {
      var domain := domains[i];
      var ip := Resolve(dns, domain);
      CollectStep(domains, i, dns, rdap);
      if ip.Some? {
        var owner := OwnerOf(rdap, ip.value);
        results := results + [Row(domain, ip.value, owner)];
      }
    }
    assert domains[..|domains|] == domains;
  }

  /**
   * `main`, after the argument check. A missing file or an empty domain list
   * stops the run before any lookup. Otherwise the rows are collected and
   * sorted by address; no row at all stops the run (where the script's `max`
   * raises); else the table is printed.
   */
  method Run(file: Option<seq<string>>, dns: map<string, Ipv4>, rdap: map<Ipv4, RdapRecord>)
    returns (outcome: Result<Table, RunError>)
    ensures file.None? ==> outcome == Failure(FileNotFound)
    ensures file.Some? && ReadDomains(file.value) == [] ==> outcome == Failure(NoDomainsFound)
    ensures file.Some? && ReadDomains(file.value) != [] ==>
      var collected := Collect(ReadDomains(file.value), dns, rdap);
      && (collected == [] ==> outcome == Failure(NoDomainResolved))
      && (collected != [] ==>
            && outcome.Success?
            && SortedByIp(outcome.value.rows)
            && multiset(outcome.value.rows) == multiset(collected)
            && (forall ip :: WithIp(outcome.value.rows, ip) == WithIp(collected, ip))
            && outcome.value.domainWidth == DomainWidth(outcome.value.rows)
            && outcome.value.lines == Render(outcome.value.rows, outcome.value.domainWidth))
  {
    if file.None? {
      return Failure(FileNotFound);
    }
    var domains := ReadDomains(file.value);
    if domains == [] {
      return Failure(NoDomainsFound);
    }
    var results := CollectRows(domains, dns, rdap);
    results := StableSort(results);
    if results == [] {
      return Failure(NoDomainResolved);
    }
    var width := DomainWidth(results);
    return Success(Table(results, width, Render(results, width)));
  }
}
