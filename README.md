# domain2ip, modelled in Dafny

`domain2ip.py` reads a text file with one domain per line. It resolves each
domain to an IPv4 address and looks up the owner of that address through
RDAP. It then prints a table of domain, address and owner, sorted by address.
This project models the part of the script that decides what gets printed, and
proves what that part promises:

- **Reading the domain list** (module `DomainList`, `domain_list.dfy`). Each
  line is stripped of surrounding whitespace with the exact character set
  Python's `str.strip()` removes. Blank lines are dropped and repeats are
  removed, keeping each name at its first position (`dict.fromkeys`).
- **Choosing the owner** (module `Ownership`, `ownership.dfy`). The first
  organisation contact with a non-empty name wins. After it come a non-empty
  network name, then a non-empty ASN description, then `"Unknown"`. A failed
  lookup gives `"Unknown"`.
- **The address text and the sort key** (module `IpAddress`,
  `ip_address.dfy`). The sort key is the dotted-quad text split on `.` with
  each piece converted by `int`. Python compares these keys as tuples. The
  model proves the key is exactly the four octets, so the order is the numeric
  order of the addresses.
- **The report** (module `Report`, `report.dfy`). The collection loop of
  `main` is an imperative method, `Report.CollectRows`, whose loop invariant
  ties the appended rows to a specification function, `Collect`; `Report.Run`
  is the rest of `main` around it. The sort is the stable
  sort `StableSort`, with sortedness, permutation, stability and uniqueness
  proved. After the sort come the column width and the printed lines.
- **Scenarios** (module `Scenarios`, `scenarios.dfy`). These are the owner
  tiers on concrete RDAP answers, the width rule on concrete names, repeat
  removal. There is also a file that names a resolving domain twice with an
  unresolvable one in between. For it, the scenarios state the sorted rows,
  the column width and the printed lines. Together with `Report.Run`'s
  contract and `Report.SortedStableUnique`, these are the table `Run`
  returns.

The outside world is reduced to values:

- DNS resolution (`socket.gethostbyname`) is a map `dns` from domain to
  address. A domain missing from it does not resolve.
- The RDAP lookup (`IPWhois(ip).lookup_rdap()`) is a map `rdap` from address to
  the parsed record: its objects in order, the network name and the ASN
  description. An address missing from it is a lookup that raised.
- The file is its sequence of lines. A missing file is `None`.

The exit paths of `main` are the error outcomes of `Report.Run`:

- `FileNotFound`: the file does not exist.
- `NoDomainsFound`: no domain remains after reading.
- `NoDomainResolved`: no domain resolved. Here the script itself fails inside
  `max`, at domain2ip.py:99.

## Model

| member | source | states |
|---|---|---|
| DomainList.IsSpace | domain2ip.py:32 | the characters `strip()` without arguments removes: Python's whitespace, which includes the separators U+1C to U+1F, U+85, U+A0, U+1680, U+2000 to U+200A, U+2028, U+2029, U+202F, U+205F and U+3000, but not U+200B or U+180E |
| DomainList.Strip | domain2ip.py:32 | the stripped line has no whitespace character at either end |
| DomainList.StripParts | domain2ip.py:32 | every line is a run of whitespace, then its stripped text, then a run of whitespace |
| DomainList.StripCharacterized | domain2ip.py:32 | stripping removes exactly the surrounding whitespace: a stripped core between two whitespace runs is what `strip` returns |
| DomainList.StripBlank | domain2ip.py:32 | a line strips to the empty string if and only if it is whitespace only, so exactly those lines are dropped |
| DomainList.StripIdempotent | domain2ip.py:32 | stripping a stripped line changes nothing |
| DomainList.NonBlank | domain2ip.py:32 | the comprehension yields at most one entry per line; each is non-empty and stripped; every non-blank line contributes its stripped text; nothing else appears |
| DomainList.NonBlankAppend | domain2ip.py:32 | the comprehension distributes over concatenation of line lists, so it keeps line order |
| DomainList.NonBlankOfNames | domain2ip.py:32 | lines that are already stripped non-empty names pass unchanged |
| DomainList.Dedup | domain2ip.py:34 | `dict.fromkeys` keeps no duplicates, keeps exactly the elements of its input, and lists them in the order of their first occurrences |
| DomainList.DedupDistinct | domain2ip.py:34 | a list without repeats comes out unchanged, so removing duplicates twice is removing them once |
| DomainList.DedupRepeated | domain2ip.py:34 | appending a name already present changes nothing |
| DomainList.NonBlankKeepsFirstOrder | domain2ip.py:32-34 | the order of first occurrence among kept lines is the order of first occurrence among all lines |
| DomainList.ReadDomains | domain2ip.py:31-34 | no duplicates; every entry is stripped and non-empty; every non-blank line's stripped text is present; every entry comes from a line; entries are ordered by the first line that yields them |
| DomainList.ReadNames | domain2ip.py:31-34 | for a file of bare names, reading only removes the repeats |
| Ownership.OrgName | domain2ip.py:57-60 | there is an organisation name exactly when some object is an organisation contact with a non-empty name, and it is the name of the first such object |
| Ownership.Fallback | domain2ip.py:62-70 | the fallback owner is never empty |
| Ownership.Owner | domain2ip.py:52-72 | the owner is never empty, and a failed lookup gives exactly `"Unknown"` |
| Ownership.OwnerPrecedence | domain2ip.py:56-70 | the first organisation object wins; otherwise a non-empty network name; otherwise a non-empty ASN description; otherwise `"Unknown"` |
| Ownership.ScanAsWritten | domain2ip.py:57-60 | the loop as written finds the first organisation name, finds nothing when there is none, and raises only when some contact is null |
| Ownership.OwnerAsWritten | domain2ip.py:52-72 | the function as written never returns an empty owner, and gives `"Unknown"` on a failed lookup |
| Ownership.ScanAgrees | domain2ip.py:57-60 | without null contacts, the loop as written finds the same organisation as `OrgName` |
| Ownership.AsWrittenAgreesWithoutNullContacts | domain2ip.py:52-72 | without null contacts, the function as written and the corrected owner agree |
| Ownership.NullContactAbortsScan | domain2ip.py:57-59 | as written, a null contact ahead of every organisation object makes the loop raise |
| Ownership.ScanAsWrittenCharacterized | domain2ip.py:57-60 | the loop as written, in all three directions: it finds a name exactly when the first organisation object has no null contact ahead of it; finds nothing exactly when there is neither an organisation object nor a null contact; raises exactly when a null contact comes before every organisation object |
| Ownership.OrgAheadOfNullContactsWins | domain2ip.py:57-60 | as written, an organisation object with no null contact ahead of it supplies the owner, even when null contacts follow it |
| Ownership.NoOrgNoNullFallsBack | domain2ip.py:57-70 | as written, with neither an organisation object nor a null contact the owner is the network name, then the ASN description, then `"Unknown"` |
| Ownership.NullContactCounterexample | domain2ip.py:57-72 | on a null contact followed by organisation "ACME" and network "NET-ACME", the function as written answers `"Unknown"` and the corrected owner answers `"ACME"` |
| IpAddress.TupleLe | domain2ip.py:96 | Python's `<=` on integer tuples: lexicographic, with a proper prefix first (what it means on octet keys is stated by `TupleLeOctets`) |
| IpAddress.IpLe | domain2ip.py:96 | two addresses are in order when their octet keys are; `IpLeIsNumeric` and `IpLeTotalOrder` give its meaning |
| IpAddress.TupleLeOctets | domain2ip.py:96 | comparing the octet tuples is comparing the first octet, then the second, then the third, then the fourth |
| IpAddress.IpLeIsNumeric | domain2ip.py:96 | the key order is the order of the addresses as 32-bit numbers |
| IpAddress.IpLeTotalOrder | domain2ip.py:96 | the key order is reflexive, total, antisymmetric and transitive |
| IpAddress.NumericNotTextual | domain2ip.py:96 | `9.255.255.255` sorts before `10.0.0.1` and not after it |
| IpAddress.Decimal | domain2ip.py:96 | `str(n)` is a non-empty run of digits, of at most three digits for an octet |
| IpAddress.ParseInt | domain2ip.py:96 | `int` on a piece of the address: the value of a non-empty run of decimal digits, and failure otherwise (its partner is `DecimalRoundTrip`) |
| IpAddress.ParseAll | domain2ip.py:96 | `tuple(map(int, parts))` fails exactly when some part fails to convert, and otherwise holds one number per part, in order |
| IpAddress.SortKey | domain2ip.py:96 | the key lambda: split the address text on `.` and convert every piece; `SortKeyOfText` states its value on every address |
| IpAddress.DecimalRoundTrip | domain2ip.py:96 | `int(str(n)) == n` |
| IpAddress.Split | domain2ip.py:96 | `split` yields at least one piece, no piece holds the separator, and joining the pieces gives the text back |
| IpAddress.SplitJoin | domain2ip.py:96 | splitting undoes joining when no piece holds the separator |
| IpAddress.Text | domain2ip.py:106 | the dotted-quad text of an address is 7 to 15 characters, so it always fits the 15-character IP column |
| IpAddress.SortKeyOfText | domain2ip.py:96 | the sort key of the address text never fails and is exactly the four octets |
| IpAddress.TextInjective | domain2ip.py:96 | distinct addresses have distinct texts |
| Report.Resolve | domain2ip.py:36-43 | `resolve_domain` yields an address exactly when the domain resolves, and then that domain's address |
| Report.OwnerOf | domain2ip.py:92 | the owner looked up for a row is never empty, and it is `"Unknown"` for an address whose lookup failed |
| Report.OwnerOfAsWritten | domain2ip.py:92 | when the address's record has no null contact, the owner in the report is the answer of `get_ip_owner` as written |
| Report.Collect | domain2ip.py:88-93 | the loop appends at most one row per domain |
| Report.CollectStep | domain2ip.py:89-93 | one turn of the loop appends the row of the current domain if and only if it resolves |
| Report.CollectSound | domain2ip.py:88-93 | every collected row belongs to a domain of the list that resolved, and holds that domain's own address and owner |
| Report.CollectIndex | domain2ip.py:89-93 | a domain that resolves has its row at a definite position |
| Report.CollectComplete | domain2ip.py:89-93 | every domain that resolves has a row |
| Report.CollectAppend | domain2ip.py:89-93 | domains are handled independently: an unresolved domain does not stop those after it |
| Report.CollectInInputOrder | domain2ip.py:89-93 | the rows follow the input order of their domains |
| Report.WithIpMembers | domain2ip.py:96 | the rows of one address are exactly the rows carrying it |
| Report.InsertPermutes | domain2ip.py:96 | inserting a row loses none and adds only that row |
| Report.InsertSorted | domain2ip.py:96 | inserting into a sorted sequence keeps it sorted |
| Report.InsertStable | domain2ip.py:96 | inserting puts the row ahead of the rows with its address and leaves their order alone |
| Report.StableSort | domain2ip.py:96 | the sorted rows are non-decreasing by the octet key, are a permutation of the input, and keep rows with equal addresses in input order |
| Report.SortedStableUnique | domain2ip.py:96 | two sorted sequences that agree on the rows of every address are equal, so the stable sort's result is the only correct one |
| Report.MaxDomainLength | domain2ip.py:99 | the maximum length is at least every domain's length and is attained by some domain |
| Report.DomainWidth | domain2ip.py:99-100 | the width is at least 10, every domain fits, and it is 10 or the length of some domain |
| Report.PadRight | domain2ip.py:103-106 | the padded cell keeps the text as its prefix, fills the rest with spaces, and is exactly the width when the text fits |
| Report.Line | domain2ip.py:103-106 | one printed line: the domain cell, a space, the 15-wide address cell, a space, the owner; `LineLayout` states its columns |
| Report.Separator | domain2ip.py:104 | the rule is `width + 35` dashes |
| Report.Render | domain2ip.py:103-106 | the printed lines are the header, the rule and one line per row: two more lines than rows |
| Report.LineLayout | domain2ip.py:106 | a printed row has its domain cell, its address cell and its owner at fixed columns |
| Report.RenderAligned | domain2ip.py:103-106 | the header and every row put the address at column `width + 1` and the owner at column `width + 17`; every domain cell is exactly `width` wide; the rule is `width + 35` dashes; one line per row, in order |
| Report.CollectRows | domain2ip.py:88-93 | the loop over the domains builds exactly the rows of `Collect`: one row per resolved domain, in input order, with its address and owner |
| Report.Run | domain2ip.py:84-106 | a missing file or an empty list ends with an error before any lookup; no resolved domain ends with an error; otherwise the table's rows are the collected rows sorted stably by address, its width is the width rule on them, and its lines are their rendering |
| Scenarios.OwnerTiers | domain2ip.py:57-70 | an "ACME" organisation beats network "NET-ACME"; "NET-ACME" alone wins; "AS1234 Example" alone wins; nothing gives `"Unknown"` |
| Scenarios.RepeatDropped | domain2ip.py:31-34 | a file `a, b, a` reads as `[a, b]` |
| Scenarios.WidthOfLongest | domain2ip.py:99-100 | with domains `x.com` and a 35-character name, the width is 35 |
| Scenarios.OneResolvedDomain | domain2ip.py:84-100 | a file `good, bad, good` with only `good` resolving to an organisation's address gives exactly one row, with that address and the organisation's name, and width `max(10, len(good))` |
| Scenarios.OneResolvedDomainPrinted | domain2ip.py:84-106 | for that file the printed report has three lines, and the last is the padded domain, the padded address text and the organisation's name |
| Scenarios.AddressText | domain2ip.py:41 | address 203.0.113.5 is printed as `203.0.113.5` |

## Left out

- The argument check, the file-existence check and the file reading are not modelled. Neither are `print` and `sys.exit` (domain2ip.py:27-31, 77-86, 103-106). The file is its list of lines, a missing file is `None`, the exits are error outcomes, and the printed text is the returned lines.
- Python's handling of newlines when reading in text mode is not modelled. The lines are given as they arrive, and `strip` removes any line terminator left on them.
- `socket.gethostbyname` is the `dns` map. The script catches only `socket.gaierror`. Other exceptions are not modelled; they end the run. Any exception other than `gaierror` ends the run, for example one raised while encoding a non-ASCII name, or `OSError` when the resolver reports a system error.
- `IPWhois(ip).lookup_rdap()` is the `rdap` map, with one fixed answer per address. The RDAP library is not part of this model, and neither are some shapes of its answer.
  - A null `objects` makes the script raise at once and answer `"Unknown"`. A missing record models this exactly.
  - A null `network` raises only when line 63 is reached, that is when no organisation object was found. In that case the script answers `"Unknown"`.
  - The record has no encoding of a null `network` that agrees with the script in every case. The intended encoding is `networkName := None`. It agrees when an organisation object is found. When none is found, it lets the ASN description through where the script answers `"Unknown"`.
- Report.Run: the rows use the corrected owner choice (`Ownership.Owner` through `Report.OwnerOf`), which treats a null contact as a missing one. The script as written answers `"Unknown"` for such an address (see "## Findings"). `Report.OwnerOfAsWritten` proves the two agree whenever the address's record has no null contact.
- The unused `pprint` import is not modelled.
- The script fails inside `max` when no domain resolves (domain2ip.py:99). The model reports this as the error outcome `NoDomainResolved` rather than reproducing the exception.
- IpAddress.ParseInt accepts only a non-empty run of ASCII digits. Python's `int` also accepts signs, surrounding whitespace, underscores and other Unicode digits. The sort key only ever sees the resolver's dotted-quad text, whose pieces are plain digits.
- Report.StableSort is a pure function on the list's value. The script's in-place `results.sort` is a library call, so aliasing of the list is not modelled.

## Findings

| source | as written | input that shows it | evidently intended | confidence | as-written member | corrected member |
|---|---|---|---|---|---|---|
| domain2ip.py:58-59 | The default `{}` applies only when the `contact` key is missing. An object whose contact is stored as null hands `None` to `.get('kind')`. That raises, and the catch-all answers `"Unknown"` for the whole address, even when a later object names the organisation or the network has a name. | The RDAP objects are an entity with a null contact, then an organisation contact named "ACME". The network name is "NET-ACME". | Treat a null contact like a missing one. The owner is then "ACME". | medium: this depends on the RDAP library storing null for entities without a contact card; not executed | Ownership.OwnerAsWritten (shown by Ownership.NullContactCounterexample; pinned by Ownership.ScanAsWrittenCharacterized) | Ownership.Owner |
