/**
 * `findEnvFiles` (src/index.js:53-68) once the directory has been listed: the
 * names that start with `.env` are kept and ordered with `.env.example`
 * first, then `.env`, then the rest in lexicographic order.
 *
 * The directory listing is the input; since it holds each name once, the
 * comparator is a strict total order on it and there is exactly one ordering
 * the sort can produce, whatever algorithm the runtime uses.
 */
module Discovery {

  import opened Text

  const ExampleName := ".env.example"
  const BaseName := ".env"

  predicate Distinct(s: seq<string>) {
    forall i, j :: 0 <= i < j < |s| ==> s[i] != s[j]
  }

  /** `files.filter(f => f.startsWith('.env'))`, keeping the listing order. */
  function FilterEnv(entries: seq<string>): (r: seq<string>)
    ensures forall f :: f in r <==> f in entries && StartsWith(f, BaseName)
    ensures multiset(r) <= multiset(entries)
    ensures Distinct(entries) ==> Distinct(r)
  {
    if entries == [] then []
    else
      var init := FilterEnv(entries[..|entries| - 1]);
      var last := entries[|entries| - 1];
      assert entries == entries[..|entries| - 1] + [last];
      if StartsWith(last, BaseName) then
        assert last !in entries[..|entries| - 1] || !Distinct(entries);
        init + [last]
      else init
  }

  /** The comparator of src/index.js:58-67, with `localeCompare` taken as code-point order. */
  function Comparator(a: string, b: string): int {
    if a == ExampleName then -1
    else if b == ExampleName then 1
    else if a == BaseName then -1
    else if b == BaseName then 1
    else LexCompare(a, b)
  }

  /** `a` is placed before `b`. */
  predicate Precedes(a: string, b: string) {
    Comparator(a, b) < 0
  }

  /** On two different names the comparator answers consistently both ways round. */
  lemma ComparatorAntisymmetric(a: string, b: string)
    requires a != b
    ensures Comparator(a, b) != 0
    ensures Comparator(a, b) < 0 <==> Comparator(b, a) > 0
  {
    if a != ExampleName && b != ExampleName && a != BaseName && b != BaseName {
      LexTotal(a, b);
      LexAsymmetric(a, b);
    }
  }

  /** Two different names are ordered one way and only one way. */
  lemma PrecedesTotal(a: string, b: string)
    requires a != b
    ensures Precedes(a, b) || Precedes(b, a)
    ensures !(Precedes(a, b) && Precedes(b, a))
  {
    ComparatorAntisymmetric(a, b);
  }

  lemma PrecedesTransitive(a: string, b: string, c: string)
    requires Precedes(a, b) && Precedes(b, c) && a != c
    ensures Precedes(a, c)
  {
    if a != ExampleName && b != ExampleName && c != ExampleName
      && a != BaseName && b != BaseName && c != BaseName {
      LexTransitive(a, b, c);
    }
  }

  /** Strictly ascending under the comparator. */
  predicate Sorted(s: seq<string>) {
    forall i, j :: 0 <= i < j < |s| ==> Precedes(s[i], s[j])
  }

  /** Puts `x` into its place in a sorted list of distinct names that does not hold it. */
  function Insert(x: string, s: seq<string>): (r: seq<string>)
    requires Sorted(s) && Distinct(s) && x !in s
    ensures multiset(r) == multiset(s) + multiset{x}
    ensures Sorted(r) && Distinct(r)
  {
    if s == [] then [x]
    else if Precedes(x, s[0]) then
      BelowHead(x, s);
      ConsSorted(x, s);
      [x] + s
    else
      PrecedesTotal(x, s[0]);
      assert s == [s[0]] + s[1..];
      var rest := Insert(x, s[1..]);
      BelowRest(s[0], x, s[1..], rest);
      ConsSorted(s[0], rest);
      [s[0]] + rest
  }

  /** What goes before the head of a sorted list goes before all of it. */
  lemma BelowHead(x: string, s: seq<string>)
    requires Sorted(s) && s != [] && Precedes(x, s[0]) && x !in s
    ensures forall j :: 0 <= j < |s| ==> Precedes(x, s[j]) && x != s[j]
  {
    forall j | 0 < j < |s| ensures Precedes(x, s[j]) {
      PrecedesTransitive(x, s[0], s[j]);
    }
  }

  /** A head placed before every element of a sorted list keeps it sorted. */
  lemma ConsSorted(h: string, t: seq<string>)
    requires Sorted(t) && Distinct(t)
    requires forall j :: 0 <= j < |t| ==> Precedes(h, t[j]) && h != t[j]
    ensures Sorted([h] + t) && Distinct([h] + t)
  {
    var r := [h] + t;
    assert forall j :: 0 < j < |r| ==> r[j] == t[j - 1];
  }

  /** The head of `x` and of the rest also goes before the list `Insert` builds from them. */
  lemma BelowRest(h: string, x: string, t: seq<string>, rest: seq<string>)
    requires Sorted([h] + t) && Distinct([h] + t) && Precedes(h, x) && h != x
    requires multiset(rest) == multiset(t) + multiset{x}
    ensures forall j :: 0 <= j < |rest| ==> Precedes(h, rest[j]) && h != rest[j]
  {
    forall j | 0 <= j < |rest| ensures Precedes(h, rest[j]) && h != rest[j] {
      var y := rest[j];
      assert ([h] + t)[0] == h;
      assert y in multiset(rest);
      if y != x {
        assert y in multiset(t);
        var k :| 0 <= k < |t| && t[k] == y;
        assert ([h] + t)[k + 1] == y;
      }
    }
  }

  /** The list in comparator order (an insertion sort). */
  function SortNames(s: seq<string>): (r: seq<string>)
    requires Distinct(s)
    ensures multiset(r) == multiset(s)
    ensures Sorted(r) && Distinct(r)
  {
    if s == [] then []
    else
      var init := s[..|s| - 1];
      var last := s[|s| - 1];
      assert s == init + [last];
      assert Distinct(init);
      var sorted := SortNames(init);
      assert last !in multiset(sorted);
      Insert(last, sorted)
  }

  /** A sorted list is fixed by its elements: the order is unique. */
  lemma {:induction false} SortedUnique(a: seq<string>, b: seq<string>)
    requires Sorted(a) && Sorted(b) && multiset(a) == multiset(b)
    ensures a == b
  {
    if a != [] {
      assert a[0] in multiset(b);
      SameHead(a, b);
      SameTail(a, b);
      SortedUnique(a[1..], b[1..]);
      assert a == [a[0]] + a[1..] && b == [b[0]] + b[1..];
    }
  }

  /** Two sorted lists with the same elements start with the same one. */
  lemma SameHead(a: seq<string>, b: seq<string>)
    requires Sorted(a) && Sorted(b) && multiset(a) == multiset(b) && a != [] && b != []
    ensures a[0] == b[0]
  {
    assert a[0] in multiset(b);
    assert b[0] in multiset(a);
    if a[0] != b[0] {
      var i :| 0 <= i < |b| && b[i] == a[0];
      var j :| 0 <= j < |a| && a[j] == b[0];
      assert Precedes(a[0], b[0]) by {
        assert j > 0;
      }
      assert Precedes(b[0], a[0]) by {
        assert i > 0;
      }
      PrecedesTotal(a[0], b[0]);
    }
  }

  /** Dropping the common head leaves sorted lists with the same elements. */
  lemma SameTail(a: seq<string>, b: seq<string>)
    requires Sorted(a) && Sorted(b) && multiset(a) == multiset(b) && a != [] && b != [] && a[0] == b[0]
    ensures Sorted(a[1..]) && Sorted(b[1..]) && multiset(a[1..]) == multiset(b[1..])
  {
    TailMultiset(a);
    TailMultiset(b);
    forall i, j | 0 <= i < j < |a| - 1 ensures Precedes(a[1..][i], a[1..][j]) {
      assert a[1..][i] == a[i + 1] && a[1..][j] == a[j + 1];
    }
    forall i, j | 0 <= i < j < |b| - 1 ensures Precedes(b[1..][i], b[1..][j]) {
      assert b[1..][i] == b[i + 1] && b[1..][j] == b[j + 1];
    }
  }

  /** Dropping the head removes one copy of it. */
  lemma TailMultiset(s: seq<string>)
    requires s != []
    ensures multiset(s[1..]) == multiset(s) - multiset{s[0]}
  {
    assert s == [s[0]] + s[1..];
  }

  /** The names `findEnvFiles` returns, in the order it returns them. */
  function FindEnvFiles(entries: seq<string>): (r: seq<string>)
    requires Distinct(entries)
    ensures forall f :: f in r <==> f in entries && StartsWith(f, BaseName)
    ensures multiset(r) == multiset(FilterEnv(entries))
    ensures Distinct(r)
    ensures Sorted(r)
  {
    var kept := FilterEnv(entries);
    var r := SortNames(kept);
    forall f ensures f in r <==> f in kept {
      assert f in r <==> f in multiset(r);
      assert f in kept <==> f in multiset(kept);
    }
    r
  }

  /** `.env.example` goes before every other name. */
  lemma ExampleFirst(b: string)
    requires b != ExampleName
    ensures Precedes(ExampleName, b) && !Precedes(b, ExampleName)
  {
  }

  /** `.env` goes before every name but `.env.example`. */
  lemma BaseNext(b: string)
    requires b != ExampleName && b != BaseName
    ensures Precedes(BaseName, b) && !Precedes(b, BaseName)
  {
  }

  /** Between any other names the order is lexicographic. */
  lemma OthersLexicographic(a: string, b: string)
    requires a != ExampleName && a != BaseName && b != ExampleName && b != BaseName
    ensures Precedes(a, b) <==> LexLess(a, b)
  {
  }

  /**
   * The ordering promised by the comparator's comments: `.env.example` first,
   * `.env` right after it (or first when there is no example file), all other
   * names in lexicographic order.
   */
  lemma FindEnvFilesOrder(entries: seq<string>)
    requires Distinct(entries)
    ensures var r := FindEnvFiles(entries);
      && (ExampleName in entries ==> r[0] == ExampleName)
      && (BaseName in entries ==>
            r[if ExampleName in entries then 1 else 0] == BaseName)
      && (forall i, j :: 0 <= i < j < |r| && r[i] != ExampleName && r[i] != BaseName ==>
            LexLess(r[i], r[j]))
  {
    var r := FindEnvFiles(entries);
    SpecialNames();
    if ExampleName in entries {
      SortedExampleFirst(r);
    }
    if BaseName in entries {
      SortedBaseNext(r);
    }
    forall i, j | 0 <= i < j < |r| && r[i] != ExampleName && r[i] != BaseName
      ensures LexLess(r[i], r[j])
    {
      assert Precedes(r[i], r[j]);
    }
  }

  /** Both special names start with `.env`, so the filter keeps them. */
  lemma SpecialNames()
    ensures StartsWith(ExampleName, BaseName) && StartsWith(BaseName, BaseName)
    ensures ExampleName != BaseName
  {
    assert ExampleName[..4] == BaseName;
  }

  lemma SortedExampleFirst(r: seq<string>)
    requires Sorted(r) && Distinct(r) && ExampleName in r
    ensures r[0] == ExampleName
  {
    var k :| 0 <= k < |r| && r[k] == ExampleName;
    assert k == 0 || Precedes(r[0], r[k]);
  }

  lemma SortedBaseNext(r: seq<string>)
    requires Sorted(r) && Distinct(r) && BaseName in r
    ensures r[if ExampleName in r then 1 else 0] == BaseName
  {
    var k :| 0 <= k < |r| && r[k] == BaseName;
    SpecialNames();
    if ExampleName in r {
      SortedExampleFirst(r);
      assert k >= 1;
      assert |r| >= 2;
      assert k == 1 || Precedes(r[1], r[k]);
    } else {
      assert k == 0 || Precedes(r[0], r[k]);
    }
  }

  /** Any strictly ordered arrangement of the kept names is the one `findEnvFiles` returns. */
  lemma FindEnvFilesUnique(entries: seq<string>, s: seq<string>)
    requires Distinct(entries)
    requires Sorted(s) && multiset(s) == multiset(FilterEnv(entries))
    ensures s == FindEnvFiles(entries)
  {
    SortedUnique(s, FindEnvFiles(entries));
  }
}
