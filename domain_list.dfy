/**
 * The input loader `read_domains`: every line of the file is stripped of
 * surrounding whitespace, blank lines are dropped, and repeated names are
 * removed keeping the first occurrence (`dict.fromkeys`).
 * The file access itself is not modelled; the loader works on the lines.
 */
module DomainList {

  /** The characters Python's `str.strip()` removes when called without arguments. */
  predicate IsSpace(c: char) {
    || c == ' '
    || '\t' <= c <= '\r'
    || '\U{1C}' <= c <= '\U{1F}'
    || c == '\U{85}' || c == '\U{A0}' || c == '\U{1680}'
    || '\U{2000}' <= c <= '\U{200A}'
    || c == '\U{2028}' || c == '\U{2029}' || c == '\U{202F}' || c == '\U{205F}' || c == '\U{3000}'
  }

  predicate AllSpace(s: string) {
    forall i :: 0 <= i < |s| ==> IsSpace(s[i])
  }

  /** A string with no whitespace at either end. */
  predicate IsStripped(s: string) {
    s == [] || (!IsSpace(s[0]) && !IsSpace(s[|s| - 1]))
  }

  /** Number of whitespace characters at the start of `s`. */
  function Leading(s: string): (n: nat)
    ensures n <= |s|
    ensures forall i :: 0 <= i < n ==> IsSpace(s[i])
    ensures n < |s| ==> !IsSpace(s[n])
  {
    if s == [] || !IsSpace(s[0]) then 0 else 1 + Leading(s[1..])
  }

  /** Length of `s` without the whitespace at its end. */
  function Kept(s: string): (m: nat)
    ensures m <= |s|
    ensures forall i :: m <= i < |s| ==> IsSpace(s[i])
    ensures m > 0 ==> !IsSpace(s[m - 1])
  {
    if s == [] || !IsSpace(s[|s| - 1]) then |s| else Kept(s[..|s| - 1])
  }

  /** `line.strip()`: the line without surrounding whitespace. */
  function Strip(s: string): (r: string)
    ensures IsStripped(r)
  {
    var t := s[Leading(s)..];
    t[..Kept(t)]
  }

  /** Cutting a string at two points and gluing the three pieces back gives the string. */
  lemma CutTwice(s: string, n: nat, m: nat)
    requires n <= |s| && m <= |s| - n
    ensures s == s[..n] + s[n..][..m] + s[n..][m..]
  {
    var t := s[n..];
    assert t[..m] + t[m..] == t;
    assert s[..n] + t == s;
    assert s[..n] + t[..m] + t[m..] == s[..n] + (t[..m] + t[m..]);
  }

  /** The stripped text sits between two runs of whitespace in the line. */
  lemma StripParts(s: string) returns (p: string, q: string)
    ensures s == p + Strip(s) + q && AllSpace(p) && AllSpace(q)
  {
    var n := Leading(s);
    var t := s[n..];
    var m := Kept(t);
    p, q := s[..n], t[m..];
    assert AllSpace(p) by {
      forall i | 0 <= i < |p| ensures IsSpace(p[i]) { assert p[i] == s[i]; }
    }
    assert AllSpace(q) by {
      forall i | 0 <= i < |q| ensures IsSpace(q[i]) { assert q[i] == t[m + i]; }
    }
    CutTwice(s, n, m);
  }

  lemma {:induction false} LeadingSkips(p: string, u: string)
    requires AllSpace(p)
    requires u == [] || !IsSpace(u[0])
    ensures Leading(p + u) == |p|
    decreases |p|
  {
    if p != [] {
      assert (p + u)[1..] == p[1..] + u;
      LeadingSkips(p[1..], u);
    } else {
      assert p + u == u;
    }
  }

  lemma {:induction false} KeptSkips(u: string, q: string)
    requires AllSpace(q)
    requires u == [] || !IsSpace(u[|u| - 1])
    ensures Kept(u + q) == |u|
    decreases |q|
  {
    if q != [] {
      assert (u + q)[..|u + q| - 1] == u + q[..|q| - 1];
      KeptSkips(u, q[..|q| - 1]);
    } else {
      assert u + q == u;
    }
  }

  /**
   * Strip removes exactly the surrounding whitespace: whenever a line is a
   * stripped core between two runs of whitespace, stripping yields that core.
   */
  lemma StripCharacterized(s: string, p: string, t: string, q: string)
    requires s == p + t + q && AllSpace(p) && AllSpace(q) && IsStripped(t)
    ensures Strip(s) == t
  {
    if t == [] {
      assert s == (p + q) + [];
      assert AllSpace(p + q);
      LeadingSkips(p + q, []);
    } else {
      assert s == p + (t + q);
      LeadingSkips(p, t + q);
      assert s[|p|..] == t + q;
      KeptSkips(t, q);
    }
  }

  /** A line contributes nothing exactly when it is blank or whitespace only. */
  lemma StripBlank(s: string)
    ensures Strip(s) == [] <==> AllSpace(s)
  {
    if AllSpace(s) {
      StripCharacterized(s, s, [], []);
    } else {
      var p, q := StripParts(s);
    }
  }

  lemma StripIdempotent(s: string)
    ensures Strip(Strip(s)) == Strip(s)
  {
    StripCharacterized(Strip(s), [], Strip(s), []);
  }

  /** The list comprehension `[line.strip() for line in f if line.strip()]`. */
  function NonBlank(lines: seq<string>): (r: seq<string>)
    ensures |r| <= |lines|
    ensures forall d :: d in r ==> d != [] && IsStripped(d)
    ensures forall i :: 0 <= i < |lines| && Strip(lines[i]) != [] ==> Strip(lines[i]) in r
    ensures forall d :: d in r ==> exists i :: 0 <= i < |lines| && Strip(lines[i]) == d
  {
    if lines == [] then []
    else
      var rest := NonBlank(lines[1..]);
      assert forall i :: 1 <= i < |lines| ==> lines[i] == lines[1..][i - 1];
      if Strip(lines[0]) == [] then rest else [Strip(lines[0])] + rest
  }

  /** Lines that are already stripped names pass the filter unchanged. */
  lemma {:induction false} NonBlankOfNames(lines: seq<string>)
    requires forall i :: 0 <= i < |lines| ==> lines[i] != [] && IsStripped(lines[i])
    ensures NonBlank(lines) == lines
  {
    if lines != [] {
      StripCharacterized(lines[0], [], lines[0], []);
      NonBlankOfNames(lines[1..]);
      assert lines == [lines[0]] + lines[1..];
    }
  }

  /** A file of names, one per line, needs only the repeats removed. */
  lemma ReadNames(lines: seq<string>)
    requires forall i :: 0 <= i < |lines| ==> lines[i] != [] && IsStripped(lines[i])
    ensures ReadDomains(lines) == Dedup(lines)
  {
    NonBlankOfNames(lines);
  }

  /** Filtering the lines keeps their order: it distributes over concatenation. */
  lemma {:induction false} NonBlankAppend(a: seq<string>, b: seq<string>)
    ensures NonBlank(a + b) == NonBlank(a) + NonBlank(b)
  {
    if a == [] {
      assert a + b == b;
    } else {
      assert (a + b)[1..] == a[1..] + b;
      NonBlankAppend(a[1..], b);
    }
  }

  predicate NoDuplicates<T(==)>(xs: seq<T>) {
    forall i, j :: 0 <= i < j < |xs| ==> xs[i] != xs[j]
  }

  /** Position of the first occurrence of `x` in `xs`, or `|xs|` when there is none. */
  function FirstIndex<T(==)>(xs: seq<T>, x: T): (k: nat)
    ensures k <= |xs|
    ensures k < |xs| <==> x in xs
    ensures k < |xs| ==> xs[k] == x
    ensures forall j :: 0 <= j < k ==> xs[j] != x
  {
    if xs == [] then 0
    else if xs[0] == x then 0
    else 1 + FirstIndex(xs[1..], x)
  }

  lemma FirstIndexExtend<T>(xs: seq<T>, x: T, y: T)
    requires y in xs || y == x
    ensures FirstIndex(xs + [x], y) == if y in xs then FirstIndex(xs, y) else |xs|
  {
    var k := FirstIndex(xs + [x], y);
    if y in xs {
      var m := FirstIndex(xs, y);
      assert (xs + [x])[m] == y;
    } else {
      assert (xs + [x])[|xs|] == x;
      assert forall j :: 0 <= j < |xs| ==> (xs + [x])[j] == xs[j];
    }
  }

  /**
   * `list(dict.fromkeys(xs))`: each element is inserted in turn, and an
   * element already present keeps its first position.
   * The result has no duplicates, holds exactly the elements of `xs`, and lists
   * them in the order of their first occurrences.
   */
  function Dedup(xs: seq<string>): (r: seq<string>)
    ensures NoDuplicates(r)
    ensures forall x :: x in r <==> x in xs
    ensures forall i, j :: 0 <= i < j < |r| ==> FirstIndex(xs, r[i]) < FirstIndex(xs, r[j])
  {
    if xs == [] then []
    else
      var init := xs[..|xs| - 1];
      var x := xs[|xs| - 1];
      var p := Dedup(init);
      assert xs == init + [x];
      forall y | y in init ensures FirstIndex(xs, y) == FirstIndex(init, y) {
        FirstIndexExtend(init, x, y);
      }
      if x in p then p
      else
        FirstIndexExtend(init, x, x);
        p + [x]
  }

  /** A list without repeats comes out unchanged; in particular `Dedup` is idempotent. */
  lemma {:induction false} DedupDistinct(xs: seq<string>)
    requires NoDuplicates(xs)
    ensures Dedup(xs) == xs
  {
    if xs != [] {
      var init, x := xs[..|xs| - 1], xs[|xs| - 1];
      assert xs == init + [x];
      assert NoDuplicates(init) by {
        forall i, j | 0 <= i < j < |init| ensures init[i] != init[j] {
          assert init[i] == xs[i] && init[j] == xs[j];
        }
      }
      DedupDistinct(init);
      assert x !in init by {
        forall k | 0 <= k < |init| ensures init[k] != x {
          assert init[k] == xs[k];
        }
      }
    }
  }

  /** A repeat of a name already seen changes nothing. */
  lemma DedupRepeated(xs: seq<string>, x: string)
    requires x in xs
    ensures Dedup(xs + [x]) == Dedup(xs)
  {
    assert (xs + [x])[..|xs|] == xs;
  }

  /** Position of the first line that strips to `d`, or `|lines|` when there is none. */
  function FirstLine(lines: seq<string>, d: string): (k: nat)
    ensures k <= |lines|
    ensures k < |lines| ==> Strip(lines[k]) == d
    ensures forall j :: 0 <= j < k ==> Strip(lines[j]) != d
  {
    if lines == [] then 0
    else if Strip(lines[0]) == d then 0
    else 1 + FirstLine(lines[1..], d)
  }

  /** Order of first occurrence among the kept lines is order of first occurrence among all lines. */
  lemma {:induction false} NonBlankKeepsFirstOrder(lines: seq<string>, x: string, y: string)
    requires x != [] && y != []
    requires FirstIndex(NonBlank(lines), x) < FirstIndex(NonBlank(lines), y)
    ensures FirstLine(lines, x) < FirstLine(lines, y)
  {
    var s0 := Strip(lines[0]);
    if s0 == [] {
      NonBlankKeepsFirstOrder(lines[1..], x, y);
    } else if s0 != x {
      assert NonBlank(lines) == [s0] + NonBlank(lines[1..]);
      NonBlankKeepsFirstOrder(lines[1..], x, y);
    }
  }

  /**
   * `read_domains` on the lines of the file: every result is a stripped,
   * non-empty name; every non-blank line contributes its stripped text
   * exactly once; nothing else appears; the order is that of first occurrence.
   */
  function ReadDomains(lines: seq<string>): (domains: seq<string>)
    ensures NoDuplicates(domains)
    ensures forall d :: d in domains ==> d != [] && IsStripped(d)
    ensures forall i :: 0 <= i < |lines| && !AllSpace(lines[i]) ==> Strip(lines[i]) in domains
    ensures forall d :: d in domains ==> exists i :: 0 <= i < |lines| && Strip(lines[i]) == d
    ensures forall i, j :: 0 <= i < j < |domains| ==> FirstLine(lines, domains[i]) < FirstLine(lines, domains[j])
  {
    var kept := NonBlank(lines);
    var r := Dedup(kept);
    forall i | 0 <= i < |lines| && !AllSpace(lines[i]) ensures Strip(lines[i]) in r {
      StripBlank(lines[i]);
    }
    forall i, j | 0 <= i < j < |r| ensures FirstLine(lines, r[i]) < FirstLine(lines, r[j]) {
      NonBlankKeepsFirstOrder(lines, r[i], r[j]);
    }
    r
  }
}
