/**
 * Path and URL construction in recognize: filepath.Join over simple
 * segments, the `%d.jpg` download names and the `/output/<id>/<name>`
 * result URLs.
 */
module Paths {
  /**
   * filepath.Join(dir, name) for a clean `dir` and a separator-free `name`:
   * the path starts with `dir` and a separator, and `name` can be read back
   * from what follows.
   */
  function Join(dir: string, name: string): (p: string)
    ensures |p| == |dir| + 1 + |name|
    ensures p[..|dir|] == dir && p[|dir|] == '/'
    ensures p[|dir| + 1..] == name
  {
    dir + "/" + name
  }

  lemma JoinInjective(dir: string, a: string, b: string)
    requires Join(dir, a) == Join(dir, b)
    ensures a == b
  {
    var n := |dir| + 1;
    assert a == Join(dir, a)[n..];
    assert b == Join(dir, b)[n..];
  }

  predicate IsDecimalDigit(c: char) { '0' <= c <= '9' }

  /** fmt.Sprintf("%d", n) for a non-negative n: canonical decimal digits, no leading zero. */
  function Decimal(n: nat): (s: string)
    ensures |s| >= 1
    ensures forall k :: 0 <= k < |s| ==> IsDecimalDigit(s[k])
    ensures s[0] == '0' <==> n == 0
  {
    var last := ('0' as int + n % 10) as char;
    if n < 10 then [last] else Decimal(n / 10) + [last]
  }

  /** The number a string of decimal digits denotes. */
  function DecimalValue(s: string): nat
    requires forall k :: 0 <= k < |s| ==> IsDecimalDigit(s[k])
  {
    if s == [] then 0
    else
      assert IsDecimalDigit(s[|s| - 1]);
      DecimalValue(s[..|s| - 1]) * 10 + (s[|s| - 1] as int - '0' as int)
  }

  /** Reading back the digits of `n` gives `n`. */
  lemma {:induction false} DecimalRoundTrip(n: nat)
    ensures DecimalValue(Decimal(n)) == n
  {
    if n >= 10 {
      var s := Decimal(n);
      assert s[..|s| - 1] == Decimal(n / 10);
      DecimalRoundTrip(n / 10);
    }
  }

  lemma DecimalInjective(a: nat, b: nat)
    ensures Decimal(a) == Decimal(b) <==> a == b
  {
    DecimalRoundTrip(a);
    DecimalRoundTrip(b);
  }

  /**
   * The file name download number i is written under: decimal digits ending
   * in ".jpg", and the digits read back as i.
   */
  function JpgName(i: nat): (name: string)
    ensures |name| >= 5 && name[|name| - 4..] == ".jpg"
    ensures forall k :: 0 <= k < |name| - 4 ==> IsDecimalDigit(name[k])
    ensures DecimalValue(name[..|name| - 4]) == i
  {
    var digits := Decimal(i);
    DecimalRoundTrip(i);
    assert (digits + ".jpg")[..|digits|] == digits;
    digits + ".jpg"
  }

  /** Distinct positions get distinct file names, so no download overwrites another. */
  lemma JpgNameInjective(i: nat, j: nat)
    ensures JpgName(i) == JpgName(j) <==> i == j
  {
    if JpgName(i) == JpgName(j) {
      var a, b := Decimal(i), Decimal(j);
      assert |a| == |b|;
      assert a == JpgName(i)[..|a|];
      assert b == JpgName(j)[..|b|];
      DecimalInjective(i, j);
    }
  }

  /** Two download positions never share a destination in one job directory. */
  lemma DistinctFileDestinations(input: string, i: nat, j: nat)
    requires i != j
    ensures Join(input, JpgName(i)) != Join(input, JpgName(j))
  {
    if Join(input, JpgName(i)) == Join(input, JpgName(j)) {
      JoinInjective(input, JpgName(i), JpgName(j));
      JpgNameInjective(i, j);
    }
  }

  /** filepath.Join("/output", id, name): the public URL of an output file. */
  function ResultUrl(id: string, name: string): (url: string)
    ensures url == "/output/" + id + "/" + name
  {
    Join(Join("/output", id), name)
  }

  /**
   * Go's `<` on file names, the order ioutil.ReadDir sorts by: lexicographic,
   * character by character (code-point order, which is also UTF-8 byte order).
   */
  predicate NameLess(a: string, b: string)
    decreases |a|
  {
    if a == [] then b != []
    else if b == [] then false
    else if a[0] != b[0] then a[0] < b[0]
    else NameLess(a[1..], b[1..])
  }

  /** A listing as ioutil.ReadDir returns it: strictly ascending, so no name twice. */
  predicate SortedByName(names: seq<string>) {
    forall i, j :: 0 <= i < j < |names| ==> NameLess(names[i], names[j])
  }

  lemma {:induction false} NameLessIrreflexive(a: string)
    ensures !NameLess(a, a)
  {
    if a != [] {
      NameLessIrreflexive(a[1..]);
    }
  }

  /** A sorted listing names no file twice. */
  lemma SortedNamesDistinct(names: seq<string>, i: nat, j: nat)
    requires SortedByName(names) && i < j < |names|
    ensures names[i] != names[j]
  {
    NameLessIrreflexive(names[i]);
  }

  /** A common prefix does not change the order of two names. */
  lemma {:induction false} NameLessPrefix(p: string, a: string, b: string)
    ensures NameLess(p + a, p + b) <==> NameLess(a, b)
  {
    if p == [] {
      assert p + a == a && p + b == b;
    } else {
      assert (p + a)[0] == p[0] == (p + b)[0];
      assert (p + a)[1..] == p[1..] + a && (p + b)[1..] == p[1..] + b;
      NameLessPrefix(p[1..], a, b);
    }
  }
}
