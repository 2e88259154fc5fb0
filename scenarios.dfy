/**
 * Concrete runs of the model: the owner tiers, the width rule, the
 * duplicate removal, and the rows, width and printed lines for a small file.
 */
module Scenarios {
  import opened Wrappers
  import opened DomainList
  import opened Ownership
  import opened IpAddress
  import opened Report

  /** One answer per tier of `get_ip_owner`. */
  lemma OwnerTiers()
    ensures Owner(Some(RdapRecord([RdapObject(Contact(Some("org"), Some("ACME")))], Some("NET-ACME"), None))) == "ACME"
    ensures Owner(Some(RdapRecord([], Some("NET-ACME"), None))) == "NET-ACME"
    ensures Owner(Some(RdapRecord([], None, Some("AS1234 Example")))) == "AS1234 Example"
    ensures Owner(Some(RdapRecord([], None, None))) == Unknown
    ensures Owner(None) == Unknown
  {
    var acme := [RdapObject(Contact(Some("org"), Some("ACME")))];
    assert IsFirstOrg(acme, 0);
    OwnerPrecedence(RdapRecord(acme, Some("NET-ACME"), None));
  }

  /** A name that comes back later in the file keeps its first position and appears once. */
  lemma RepeatDropped(a: string, b: string)
    requires a != [] && IsStripped(a) && b != [] && IsStripped(b) && a != b
    ensures ReadDomains([a, b, a]) == [a, b]
  {
    var lines, two := [a, b, a], [a, b];
    assert lines == two + [a];
    ReadNames(lines);
    DedupRepeated(two, a);
    DedupDistinct(two);
  }

  /** The domain column is as wide as the longest domain once that exceeds ten characters. */
  lemma WidthOfLongest()
    ensures var rows := [Row("x.com", Ipv4(10, 0, 0, 1), Unknown),
                         Row("a-very-long-domain-name.example.com", Ipv4(10, 0, 0, 2), Unknown)];
      DomainWidth(rows) == 35
  {
    var rows := [Row("x.com", Ipv4(10, 0, 0, 1), Unknown),
                 Row("a-very-long-domain-name.example.com", Ipv4(10, 0, 0, 2), Unknown)];
    assert rows[1..] == [rows[1]];
  }

  /**
   * A file naming a resolving domain twice and an unresolvable one in
   * between, where the address belongs to an organisation: the report has
   * exactly one row, with the resolved address and the organisation's name,
   * and the domain column is as wide as that domain, or ten.
   */
  lemma OneResolvedDomain(good: string, bad: string, ip: Ipv4, org: string)
    requires good != [] && IsStripped(good) && bad != [] && IsStripped(bad) && good != bad
    requires org != []
    ensures var dns := map[good := ip];
            var rdap := map[ip := RdapRecord([RdapObject(Contact(Some("org"), Some(org)))], None, None)];
            var rows := StableSort(Collect(ReadDomains([good, bad, good]), dns, rdap));
            && rows == [Row(good, ip, org)]
            && DomainWidth(rows) == if |good| > MinDomainWidth then |good| else MinDomainWidth
  {
    var dns := map[good := ip];
    var objects := [RdapObject(Contact(Some("org"), Some(org)))];
    var rdap := map[ip := RdapRecord(objects, None, None)];
    var row := Row(good, ip, org);
    RepeatDropped(good, bad);
    assert bad !in dns;
    assert IsFirstOrg(objects, 0);
    OwnerPrecedence(RdapRecord(objects, None, None));
    assert RowFor(good, dns, rdap) == row;
    assert [good, bad][..1] == [good];
    assert [good][..0] == [];
    assert Collect([good], dns, rdap) == [row];
    assert Collect([good, bad], dns, rdap) == [row];
    assert StableSort([row]) == [row];
  }

  /**
   * The printed report of that run: the header, the rule and one line holding
   * the domain, the address text and the organisation's name.
   */
  lemma OneResolvedDomainPrinted(good: string, bad: string, ip: Ipv4, org: string)
    requires good != [] && IsStripped(good) && bad != [] && IsStripped(bad) && good != bad
    requires org != []
    ensures var dns := map[good := ip];
            var rdap := map[ip := RdapRecord([RdapObject(Contact(Some("org"), Some(org)))], None, None)];
            var rows := StableSort(Collect(ReadDomains([good, bad, good]), dns, rdap));
            && rows == [Row(good, ip, org)]
            && var width := DomainWidth(rows);
               var lines := Render(rows, width);
               && |lines| == 3
               && lines[2] == PadRight(good, width) + " " + PadRight(Text(ip), IpWidth) + " " + org
  {
    OneResolvedDomain(good, bad, ip, org);
    var row := Row(good, ip, org);
    var width := DomainWidth([row]);
    assert Render([row], width)[2] == Line(good, Text(ip), org, width);
  }

  /** An address is printed as the resolver spells it. */
  lemma AddressText()
    ensures Text(Ipv4(203, 0, 113, 5)) == "203.0.113.5"
  {
    assert Decimal(20) == Decimal(2) + ['0'];
    assert Decimal(203) == Decimal(20) + ['3'];
    assert Decimal(11) == Decimal(1) + ['1'];
    assert Decimal(113) == Decimal(11) + ['3'];
  }
}
