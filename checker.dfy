/**
 * `checkEnvFiles` (src/index.js:73-201): every `.env*` file found is parsed, the
 * union of their keys is taken, and each key is checked for files that lack
 * it and for files that disagree on the kind of value it holds. The outcome
 * carries three flags, the list of issues and a report.
 *
 * The directory is given as its listing `entries` and as `read`, the content
 * of each listed path that exists when it is parsed; a listed name missing
 * from `read` is a path for which `fs.existsSync` is false, and `parseEnvFile`
 * skips it.
 * The report is kept as its sequence of items rather than as text.
 */
module Checker {

  import opened Wrappers
  import opened Text
  import opened EnvParser
  import opened TypeDetection
  import opened Discovery

  /** One entry of `parsed`: a file's base name and the object read from it. */
  datatype ParsedFile = ParsedFile(name: string, vars: Env)

  /** One entry of an issue's `types` object: a file and the type of the key's value there. */
  datatype FileType = FileType(file: string, valueType: ValueType)

  datatype Issue =
    | Missing(key: string, files: seq<string>)
    | TypeMismatch(key: string, types: seq<FileType>)

  /** The pieces the report is assembled from, in the order they are appended. */
  datatype ReportItem =
    | Title
    | Rule
    | FoundFiles(names: seq<string>)
    | UniqueKeys(count: nat)
    | MissingHeading
    | MismatchHeading
    | KeyLine(key: string)
    | MissingInLine(file: string)
    | FileTypeLine(file: string, valueType: ValueType)
    | SectionEnd
    | AllConsistent
    | Summary(missing: nat, mismatches: nat)

  /** The object `checkEnvFiles` returns; the two early returns carry only a message. */
  datatype CheckResult =
    | NoEnvFiles
    | NoValidFiles
    | Checked(hasErrors: bool, hasMissing: bool, hasTypeMismatch: bool,
              issues: seq<Issue>, report: seq<ReportItem>)

  /** The `hasErrors` field, which the early returns set to `false`. */
  function HasErrors(r: CheckResult): bool {
    r.Checked? && r.hasErrors
  }

  // ---------------------------------------------------------------------
  // Specification functions
  // ---------------------------------------------------------------------

  function Names(files: seq<ParsedFile>): seq<string> {
    seq(|files|, i requires 0 <= i < |files| => files[i].name)
  }

  /** The type `detectType` gives the value of `key` in `f`, when `f` sets `key`. */
  function TypeIn(f: ParsedFile, key: string): Option<ValueType> {
    match Get(f.vars, key)
    case None => None
    case Some(v) => Some(DetectType(v))
  }

  /** `parsed`: the found files that exist, in the order found, each with its object. */
  function Parsed(names: seq<string>, read: map<string, string>): (r: seq<ParsedFile>)
    ensures forall f :: f in Names(r) <==> f in names && f in read
    ensures forall i :: 0 <= i < |r| ==> r[i].name in read && r[i].vars == ParseContent(read[r[i].name])
    ensures Distinct(names) ==> Distinct(Names(r))
  {
    if names == [] then []
    else
      var init := Parsed(names[..|names| - 1], read);
      var f := names[|names| - 1];
      assert names == names[..|names| - 1] + [f];
      if f in read then
        var p := ParsedFile(f, ParseContent(read[f]));
        NamesSnoc(init, p);
        assert f !in names[..|names| - 1] || !Distinct(names);
        init + [p]
      else init
  }

  lemma NamesSnoc(init: seq<ParsedFile>, p: ParsedFile)
    ensures Names(init + [p]) == Names(init) + [p.name]
  {
  }

  /** `keys` added one by one to the insertion-ordered set `acc`. */
  function AddAll(acc: seq<string>, keys: seq<string>): (r: seq<string>)
    ensures forall k :: k in r <==> k in acc || k in keys
    ensures Distinct(acc) ==> Distinct(r)
  {
    if keys == [] then acc
    else
      var r := AddAll(acc, keys[..|keys| - 1]);
      var k := keys[|keys| - 1];
      assert keys == keys[..|keys| - 1] + [k];
      if k in r then r else r + [k]
  }

  /** `allKeys`: every key of every file, each once, in the order first met. */
  function AllKeys(files: seq<ParsedFile>): (r: seq<string>)
    ensures Distinct(r)
    ensures forall k :: k in r <==> exists i :: 0 <= i < |files| && k in Keys(files[i].vars)
  {
    if files == [] then []
    else
      var init := files[..|files| - 1];
      var r := AddAll(AllKeys(init), Keys(files[|files| - 1].vars));
      assert forall i :: 0 <= i < |init| ==> init[i] == files[i];
      r
  }

  /** `missingIn`: the names of the files where `key` is not set, in file order. */
  function MissingIn(files: seq<ParsedFile>, key: string): (r: seq<string>)
    ensures |r| <= |files|
  {
    if files == [] then []
    else
      var r0 := MissingIn(files[..|files| - 1], key);
      var last := files[|files| - 1];
      if key in Keys(last.vars) then r0 else r0 + [last.name]
  }

  /** A name is in `missingIn` exactly when some file of that name lacks the key. */
  lemma {:induction false} MissingInMembers(files: seq<ParsedFile>, key: string)
    ensures forall f :: f in MissingIn(files, key) <==>
      exists i :: 0 <= i < |files| && files[i].name == f && key !in Keys(files[i].vars)
  {
    if files != [] {
      var init := files[..|files| - 1];
      MissingInMembers(init, key);
      assert forall i :: 0 <= i < |init| ==> init[i] == files[i];
    }
  }

  /** `missingIn` is empty when every file sets the key and full when none does. */
  lemma {:induction false} MissingInCount(files: seq<ParsedFile>, key: string)
    ensures |MissingIn(files, key)| == 0 <==> forall i :: 0 <= i < |files| ==> key in Keys(files[i].vars)
    ensures |MissingIn(files, key)| == |files| <==> forall i :: 0 <= i < |files| ==> key !in Keys(files[i].vars)
  {
    if files != [] {
      var init := files[..|files| - 1];
      MissingInCount(init, key);
      assert forall i :: 0 <= i < |init| ==> init[i] == files[i];
    }
  }

  /** `types`: for each file where `key` is set, its name and the type of its value, in file order. */
  function TypesOf(files: seq<ParsedFile>, key: string): seq<FileType> {
    if files == [] then []
    else
      var r0 := TypesOf(files[..|files| - 1], key);
      var last := files[|files| - 1];
      match TypeIn(last, key)
      case None => r0
      case Some(vt) => r0 + [FileType(last.name, vt)]
  }

  /** An entry of `types` is a file that sets the key, with the type of its value there. */
  lemma TypesOfMembers(files: seq<ParsedFile>, key: string)
    ensures forall t :: t in TypesOf(files, key) <==>
      exists i :: 0 <= i < |files| && files[i].name == t.file && TypeIn(files[i], key) == Some(t.valueType)
  {
    forall t ensures t in TypesOf(files, key) <==>
      exists i :: 0 <= i < |files| && files[i].name == t.file && TypeIn(files[i], key) == Some(t.valueType)
    {
      if t in TypesOf(files, key) {
        var i := TypeOrigin(files, key, t);
      }
      if exists i :: 0 <= i < |files| && files[i].name == t.file && TypeIn(files[i], key) == Some(t.valueType) {
        var i :| 0 <= i < |files| && files[i].name == t.file && TypeIn(files[i], key) == Some(t.valueType);
        TypeListed(files, key, i);
      }
    }
  }

  /** An entry of `types` names a file that sets the key, with the type of its value there. */
  lemma {:induction false} TypeOrigin(files: seq<ParsedFile>, key: string, t: FileType) returns (i: nat)
    requires t in TypesOf(files, key)
    ensures i < |files| && files[i].name == t.file && TypeIn(files[i], key) == Some(t.valueType)
  {
    var init := files[..|files| - 1];
    var last := files[|files| - 1];
    if t in TypesOf(init, key) {
      i := TypeOrigin(init, key, t);
      assert files[i] == init[i];
    } else {
      i := |files| - 1;
    }
  }

  /** A file that sets the key has its entry in `types`. */
  lemma {:induction false} TypeListed(files: seq<ParsedFile>, key: string, i: nat)
    requires i < |files| && TypeIn(files[i], key).Some?
    ensures FileType(files[i].name, TypeIn(files[i], key).value) in TypesOf(files, key)
  {
    var init := files[..|files| - 1];
    var last := files[|files| - 1];
    match TypeIn(last, key) {
      case None =>
        assert TypesOf(files, key) == TypesOf(init, key);
        assert i < |init|;
        TypeListed(init, key, i);
        assert files[i] == init[i];
      case Some(vt) =>
        assert TypesOf(files, key) == TypesOf(init, key) + [FileType(last.name, vt)];
        if i < |init| {
          TypeListed(init, key, i);
          assert files[i] == init[i];
        }
    }
  }

  /** A file either lacks the key or contributes one type. */
  lemma {:induction false} TypesOfCount(files: seq<ParsedFile>, key: string)
    ensures |TypesOf(files, key)| + |MissingIn(files, key)| == |files|
  {
    if files != [] {
      TypesOfCount(files[..|files| - 1], key);
    }
  }

  /** The distinct types among `types` (`new Set(Object.values(types))`). */
  function TypeSet(types: seq<FileType>): set<ValueType> {
    set i | 0 <= i < |types| :: types[i].valueType
  }

  /** More than one type, none of them `empty` (src/index.js:146-148). */
  predicate IsMismatch(types: seq<FileType>) {
    |TypeSet(types)| > 1 && Empty !in TypeSet(types)
  }

  /** The issues pushed for one key (src/index.js:133-155). */
  function IssuesFor(files: seq<ParsedFile>, key: string): seq<Issue> {
    var missing := MissingIn(files, key);
    var types := TypesOf(files, key);
    (if 0 < |missing| < |files| then [Missing(key, missing)] else [])
      + (if IsMismatch(types) then [TypeMismatch(key, types)] else [])
  }

  /** The issues pushed for `keys`, one key after the other. */
  function IssuesOver(files: seq<ParsedFile>, keys: seq<string>): seq<Issue> {
    if keys == [] then []
    else IssuesOver(files, keys[..|keys| - 1]) + IssuesFor(files, keys[|keys| - 1])
  }

  /** `issues` after every key of `allKeys` has been checked. */
  function Issues(files: seq<ParsedFile>): seq<Issue> {
    IssuesOver(files, AllKeys(files))
  }

  predicate AnyMissing(issues: seq<Issue>) {
    exists i :: 0 <= i < |issues| && issues[i].Missing?
  }

  predicate AnyMismatch(issues: seq<Issue>) {
    exists i :: 0 <= i < |issues| && issues[i].TypeMismatch?
  }

  /** `issues.filter(i => i.type === 'missing').length` */
  function CountMissing(issues: seq<Issue>): (n: nat)
    ensures n <= |issues|
    ensures n == 0 <==> !AnyMissing(issues)
  {
    if issues == [] then 0
    else
      var init := issues[..|issues| - 1];
      assert forall i :: 0 <= i < |init| ==> init[i] == issues[i];
      CountMissing(init) + if issues[|issues| - 1].Missing? then 1 else 0
  }

  /** `issues.filter(i => i.type === 'type-mismatch').length` */
  function CountMismatch(issues: seq<Issue>): (n: nat)
    ensures n + CountMissing(issues) == |issues|
    ensures n == 0 <==> !AnyMismatch(issues)
  {
    if issues == [] then 0
    else
      var init := issues[..|issues| - 1];
      assert forall i :: 0 <= i < |init| ==> init[i] == issues[i];
      CountMismatch(init) + if issues[|issues| - 1].TypeMismatch? then 1 else 0
  }

  /** The lines under "Missing Variables" for the missing issues among `issues`. */
  function MissingLines(issues: seq<Issue>): seq<ReportItem> {
    if issues == [] then []
    else
      MissingLines(issues[..|issues| - 1]) +
        match issues[|issues| - 1]
        case Missing(k, fs) => [KeyLine(k)] + FileLines(fs)
        case TypeMismatch(_, _) => []
  }

  function FileLines(fs: seq<string>): seq<ReportItem> {
    seq(|fs|, i requires 0 <= i < |fs| => MissingInLine(fs[i]))
  }

  /** The lines under "Type Mismatches" for the mismatch issues among `issues`. */
  function MismatchLines(issues: seq<Issue>): seq<ReportItem> {
    if issues == [] then []
    else
      MismatchLines(issues[..|issues| - 1]) +
        match issues[|issues| - 1]
        case Missing(_, _) => []
        case TypeMismatch(k, ts) => [KeyLine(k)] + TypeLines(ts)
  }

  function TypeLines(ts: seq<FileType>): seq<ReportItem> {
    seq(|ts|, i requires 0 <= i < |ts| => FileTypeLine(ts[i].file, ts[i].valueType))
  }

  /** The report of src/index.js:108-192 for a check that found `issues`. */
  function Report(files: seq<ParsedFile>, keyCount: nat, issues: seq<Issue>): seq<ReportItem> {
    [Title, Rule, FoundFiles(Names(files)), UniqueKeys(keyCount)]
      + (if AnyMissing(issues) then [MissingHeading] + MissingLines(issues) + [SectionEnd] else [])
      + (if AnyMismatch(issues) then [MismatchHeading] + MismatchLines(issues) + [SectionEnd] else [])
      + (if !AnyMissing(issues) && !AnyMismatch(issues) then [AllConsistent] else [])
      + [Rule, Summary(CountMissing(issues), CountMismatch(issues))]
  }

  /** What `checkEnvFiles` returns for a directory with this listing and these file contents. */
  function ExpectedResult(entries: seq<string>, read: map<string, string>): CheckResult
    requires Distinct(entries)
  {
    var names := FindEnvFiles(entries);
    if names == [] then NoEnvFiles
    else
      var files := Parsed(names, read);
      if files == [] then NoValidFiles
      else
        var keys := AllKeys(files);
        var issues := IssuesOver(files, keys);
        Checked(AnyMissing(issues), AnyMissing(issues), AnyMismatch(issues),
                issues, Report(files, |keys|, issues))
  }

  // ---------------------------------------------------------------------
  // What the issues mean
  // ---------------------------------------------------------------------

  /** Every issue in the list was pushed by the check of one of the keys. */
  lemma {:induction false} IssueOrigin(files: seq<ParsedFile>, keys: seq<string>, iss: Issue) returns (k: string)
    requires iss in IssuesOver(files, keys)
    ensures k in keys && iss in IssuesFor(files, k)
  {
    var init := keys[..|keys| - 1];
    var last := keys[|keys| - 1];
    assert keys == init + [last];
    if iss in IssuesFor(files, last) {
      k := last;
    } else {
      k := IssueOrigin(files, init, iss);
    }
  }

  /** Every issue the check of a listed key pushes is in the list. */
  lemma {:induction false} IssueReached(files: seq<ParsedFile>, keys: seq<string>, k: string, iss: Issue)
    requires k in keys && iss in IssuesFor(files, k)
    ensures iss in IssuesOver(files, keys)
  {
    var init := keys[..|keys| - 1];
    var last := keys[|keys| - 1];
    assert keys == init + [last];
    if k != last {
      IssueReached(files, init, k, iss);
    }
  }

  /**
   * A key is reported missing exactly when some checked file sets it and some
   * other one does not, and the issue lists precisely the files that lack it.
   */
  lemma MissingIssueIff(files: seq<ParsedFile>, key: string, fs: seq<string>)
    ensures Missing(key, fs) in Issues(files) <==>
      && fs == MissingIn(files, key)
      && (exists i :: 0 <= i < |files| && key in Keys(files[i].vars))
      && (exists i :: 0 <= i < |files| && key !in Keys(files[i].vars))
  {
    var keys := AllKeys(files);
    MissingInCount(files, key);
    MissingPushed(files, key, fs);
    if Missing(key, fs) in Issues(files) {
      var k := IssueOrigin(files, keys, Missing(key, fs));
      assert k == key;
    }
    if && fs == MissingIn(files, key)
       && (exists i :: 0 <= i < |files| && key in Keys(files[i].vars))
       && (exists i :: 0 <= i < |files| && key !in Keys(files[i].vars)) {
      assert key in keys;
      IssueReached(files, keys, key, Missing(key, fs));
    }
  }

  /** The check of `key` pushes a missing issue when some but not all files lack it. */
  lemma MissingPushed(files: seq<ParsedFile>, key: string, fs: seq<string>)
    ensures Missing(key, fs) in IssuesFor(files, key) <==>
      fs == MissingIn(files, key) && 0 < |fs| < |files|
  {
    var m := MissingIn(files, key);
    var mm := if IsMismatch(TypesOf(files, key)) then [TypeMismatch(key, TypesOf(files, key))] else [];
    assert IssuesFor(files, key) == (if 0 < |m| < |files| then [Missing(key, m)] else []) + mm;
    assert Missing(key, fs) !in mm;
  }

  /** A file that sets the key has a type for it. */
  lemma TypeInSome(f: ParsedFile, key: string)
    ensures TypeIn(f, key).Some? <==> key in Keys(f.vars)
  {
  }

  /**
   * A key is reported as a type mismatch exactly when the types of its values
   * form a mismatch, and the issue lists the type in every file that sets it.
   */
  lemma MismatchIssueIff(files: seq<ParsedFile>, key: string, ts: seq<FileType>)
    ensures TypeMismatch(key, ts) in Issues(files) <==> ts == TypesOf(files, key) && IsMismatch(ts)
  {
    var keys := AllKeys(files);
    if TypeMismatch(key, ts) in Issues(files) {
      var k := IssueOrigin(files, keys, TypeMismatch(key, ts));
      assert k == key;
    }
    if ts == TypesOf(files, key) && IsMismatch(ts) {
      assert ts != [] by {
        assert TypeSet([]) == {};
      }
      TypesOfMembers(files, key);
      assert ts[0] in ts;
      var i :| 0 <= i < |files| && files[i].name == ts[0].file && TypeIn(files[i], key) == Some(ts[0].valueType);
      TypeInSome(files[i], key);
      assert key in keys;
      IssueReached(files, keys, key, TypeMismatch(key, ts));
    }
  }

  /** A finite set has more than one element exactly when it holds two different ones. */
  lemma MoreThanOne<T>(s: set<T>)
    ensures |s| > 1 <==> exists a, b :: a in s && b in s && a != b
  {
    if |s| > 1 {
      var a :| a in s;
      assert |s - {a}| == |s| - 1;
      var b :| b in s - {a};
    }
    if exists a, b :: a in s && b in s && a != b {
      var a, b :| a in s && b in s && a != b;
      assert |s - {a}| == |s| - 1;
      assert b in s - {a};
    }
  }

  /** A type occurs among `types` exactly when some file gives the key's value that type. */
  lemma TypeSetMembers(files: seq<ParsedFile>, key: string)
    ensures forall vt :: vt in TypeSet(TypesOf(files, key)) <==>
      exists i :: 0 <= i < |files| && TypeIn(files[i], key) == Some(vt)
  {
    forall vt ensures vt in TypeSet(TypesOf(files, key)) <==>
      exists i :: 0 <= i < |files| && TypeIn(files[i], key) == Some(vt)
    {
      if vt in TypeSet(TypesOf(files, key)) {
        var i := TypeSource(files, key, vt);
      }
      if exists i :: 0 <= i < |files| && TypeIn(files[i], key) == Some(vt) {
        var i :| 0 <= i < |files| && TypeIn(files[i], key) == Some(vt);
        TypeReached(files, key, i);
      }
    }
  }

  /** A type among the key's types comes from a file that gives its value that type. */
  lemma TypeSource(files: seq<ParsedFile>, key: string, vt: ValueType) returns (i: nat)
    requires vt in TypeSet(TypesOf(files, key))
    ensures i < |files| && TypeIn(files[i], key) == Some(vt)
  {
    var ts := TypesOf(files, key);
    var k :| 0 <= k < |ts| && ts[k].valueType == vt;
    assert ts[k] in ts;
    i := TypeOrigin(files, key, ts[k]);
  }

  /** The type of the key's value in any file that sets it is among the key's types. */
  lemma TypeReached(files: seq<ParsedFile>, key: string, i: nat)
    requires i < |files| && TypeIn(files[i], key).Some?
    ensures TypeIn(files[i], key).value in TypeSet(TypesOf(files, key))
  {
    var ts := TypesOf(files, key);
    var t := FileType(files[i].name, TypeIn(files[i], key).value);
    TypeListed(files, key, i);
    var k :| 0 <= k < |ts| && ts[k] == t;
  }

  /**
   * The mismatch rule in terms of the files: two files give the key's values
   * different types, and no file sets the key to the empty string.
   */
  lemma MismatchMeaning(files: seq<ParsedFile>, key: string)
    ensures IsMismatch(TypesOf(files, key)) <==>
      && (exists i, j :: 0 <= i < |files| && 0 <= j < |files|
            && TypeIn(files[i], key).Some? && TypeIn(files[j], key).Some?
            && TypeIn(files[i], key) != TypeIn(files[j], key))
      && (forall i :: 0 <= i < |files| ==> Get(files[i].vars, key) != Some(""))
  {
    DistinctTypesMeaning(files, key);
    EmptyTypeMeaning(files, key);
  }

  /** The key's values have more than one type exactly when two files give them different types. */
  lemma DistinctTypesMeaning(files: seq<ParsedFile>, key: string)
    ensures |TypeSet(TypesOf(files, key))| > 1 <==>
      exists i, j :: 0 <= i < |files| && 0 <= j < |files|
        && TypeIn(files[i], key).Some? && TypeIn(files[j], key).Some?
        && TypeIn(files[i], key) != TypeIn(files[j], key)
  {
    var ts := TypesOf(files, key);
    MoreThanOne(TypeSet(ts));
    if exists i, j :: 0 <= i < |files| && 0 <= j < |files|
         && TypeIn(files[i], key).Some? && TypeIn(files[j], key).Some?
         && TypeIn(files[i], key) != TypeIn(files[j], key) {
      var i, j :| 0 <= i < |files| && 0 <= j < |files|
         && TypeIn(files[i], key).Some? && TypeIn(files[j], key).Some?
         && TypeIn(files[i], key) != TypeIn(files[j], key);
      TypeReached(files, key, i);
      TypeReached(files, key, j);
    }
    if |TypeSet(ts)| > 1 {
      var a, b :| a in TypeSet(ts) && b in TypeSet(ts) && a != b;
      var i := TypeSource(files, key, a);
      var j := TypeSource(files, key, b);
    }
  }

  /** `empty` is among the key's types exactly when some file sets the key to the empty string. */
  lemma EmptyTypeMeaning(files: seq<ParsedFile>, key: string)
    ensures Empty in TypeSet(TypesOf(files, key)) <==>
      exists i :: 0 <= i < |files| && Get(files[i].vars, key) == Some("")
  {
    TypeSetMembers(files, key);
    forall i | 0 <= i < |files| ensures TypeIn(files[i], key) == Some(Empty) <==> Get(files[i].vars, key) == Some("") {
    }
  }

  /** Every issue is about one of the keys checked. */
  lemma IssueKeys(files: seq<ParsedFile>, keys: seq<string>)
    ensures forall iss :: iss in IssuesOver(files, keys) ==> iss.key in keys
  {
    forall iss | iss in IssuesOver(files, keys) ensures iss.key in keys {
      var k := IssueOrigin(files, keys, iss);
      IssuesOfOneKey(files, k);
    }
  }

  /** Two issues about the same key are a missing issue followed by a mismatch issue. */
  predicate GroupedByKey(iss: seq<Issue>) {
    forall i, j :: 0 <= i < j < |iss| && iss[i].key == iss[j].key ==> iss[i].Missing? && iss[j].TypeMismatch?
  }

  /**
   * Issues come key by key: two issues about the same key are its missing
   * issue followed by its mismatch issue.
   */
  lemma {:induction false} IssuesGroupedByKey(files: seq<ParsedFile>, keys: seq<string>)
    requires Distinct(keys)
    ensures GroupedByKey(IssuesOver(files, keys))
  {
    if keys != [] {
      var init := keys[..|keys| - 1];
      var last := keys[|keys| - 1];
      assert Distinct(init);
      assert last !in init;
      IssuesGroupedByKey(files, init);
      IssueKeys(files, init);
      IssuesOfOneKey(files, last);
      var p := IssuesOver(files, init);
      var q := IssuesFor(files, last);
      assert forall x :: 0 <= x < |p| ==> p[x].key != last by {
        forall x | 0 <= x < |p| ensures p[x].key != last {
          assert p[x] in p;
        }
      }
      assert forall y :: 0 <= y < |q| ==> q[y].key == last by {
        forall y | 0 <= y < |q| ensures q[y].key == last {
          assert q[y] in q;
        }
      }
      var iss := p + q;
      forall i, j | 0 <= i < j < |iss| && iss[i].key == iss[j].key
        ensures iss[i].Missing? && iss[j].TypeMismatch?
      {
        if j < |p| {
          assert iss[i] == p[i] && iss[j] == p[j];
        } else if i >= |p| {
          assert i - |p| == 0 && j - |p| == 1;
          assert iss[i] == q[0] && iss[j] == q[1];
        }
      }
    }
  }

  /** A missing issue and a mismatch issue are all one key can produce. */
  lemma IssuesOfOneKey(files: seq<ParsedFile>, key: string)
    ensures var q := IssuesFor(files, key);
      && |q| <= 2
      && (forall iss :: iss in q ==> iss.key == key)
      && (|q| == 2 ==> q[0].Missing? && q[1].TypeMismatch?)
  {
  }

  /** Some key is set in one of the files and not in another. */
  predicate SomeKeyMissing(files: seq<ParsedFile>) {
    exists k, i, j :: 0 <= i < |files| && 0 <= j < |files| && k in Keys(files[i].vars) && k !in Keys(files[j].vars)
  }

  /** Some missing issue is found exactly when some key is set in one file and not in another. */
  lemma AnyMissingIff(files: seq<ParsedFile>)
    ensures AnyMissing(Issues(files)) <==> SomeKeyMissing(files)
  {
    var issues := Issues(files);
    if exists k, i, j :: 0 <= i < |files| && 0 <= j < |files|
         && k in Keys(files[i].vars) && k !in Keys(files[j].vars) {
      var k, i, j :| 0 <= i < |files| && 0 <= j < |files|
         && k in Keys(files[i].vars) && k !in Keys(files[j].vars);
      MissingIssueIff(files, k, MissingIn(files, k));
      var x :| 0 <= x < |issues| && issues[x] == Missing(k, MissingIn(files, k));
    }
    if AnyMissing(issues) {
      var x :| 0 <= x < |issues| && issues[x].Missing?;
      MissingIssueIff(files, issues[x].key, issues[x].files);
      assert issues[x] in issues;
    }
  }

  /** Some mismatch issue is found exactly when the types of some key form a mismatch. */
  lemma AnyMismatchIff(files: seq<ParsedFile>)
    ensures AnyMismatch(Issues(files)) <==> exists k :: IsMismatch(TypesOf(files, k))
  {
    var issues := Issues(files);
    if exists k :: IsMismatch(TypesOf(files, k)) {
      var k :| IsMismatch(TypesOf(files, k));
      MismatchIssueIff(files, k, TypesOf(files, k));
      var x :| 0 <= x < |issues| && issues[x] == TypeMismatch(k, TypesOf(files, k));
    }
    if AnyMismatch(issues) {
      var x :| 0 <= x < |issues| && issues[x].TypeMismatch?;
      MismatchIssueIff(files, issues[x].key, issues[x].types);
      assert issues[x] in issues;
    }
  }

  /**
   * `hasErrors` is raised exactly when some key is set in one checked file and
   * not in another; `hasMissing` always equals it, and `hasTypeMismatch` is
   * raised exactly when some key's types form a mismatch (which on its own
   * leaves `hasErrors` down).
   */
  lemma ResultFlags(entries: seq<string>, read: map<string, string>)
    requires Distinct(entries)
    ensures var r := ExpectedResult(entries, read);
      var files := Parsed(FindEnvFiles(entries), read);
      && (HasErrors(r) <==> SomeKeyMissing(files))
      && (r.Checked? ==> r.hasMissing == r.hasErrors)
      && (r.Checked? ==> (r.hasTypeMismatch <==> exists k :: IsMismatch(TypesOf(files, k))))
  {
    var files := Parsed(FindEnvFiles(entries), read);
    AnyMissingIff(files);
    AnyMismatchIff(files);
  }

  /**
   * The two early returns: no `.env*` name in the listing, or such names but
   * none of them exists any more. Neither reports an error.
   */
  lemma EarlyReturns(entries: seq<string>, read: map<string, string>)
    requires Distinct(entries)
    ensures ExpectedResult(entries, read) == NoEnvFiles <==>
      forall e :: e in entries ==> !StartsWith(e, BaseName)
    ensures ExpectedResult(entries, read) == NoValidFiles <==>
      && (exists e :: e in entries && StartsWith(e, BaseName))
      && (forall e :: e in entries && StartsWith(e, BaseName) ==> e !in read)
    ensures !ExpectedResult(entries, read).Checked? ==> !HasErrors(ExpectedResult(entries, read))
  {
    var names := FindEnvFiles(entries);
    var files := Parsed(names, read);
    assert names == [] <==> forall e :: e in entries ==> !StartsWith(e, BaseName) by {
      if names != [] {
        assert names[0] in names;
      }
    }
    assert |Names(files)| == |files|;
    assert files == [] <==> forall e :: e in names ==> e !in read by {
      if files != [] {
        assert Names(files)[0] in Names(files);
      }
    }
  }

  /** Lines under the two headings are key lines and file lines only. */
  lemma {:induction false} SectionLines(issues: seq<Issue>)
    ensures forall x :: x in MissingLines(issues) ==> x.KeyLine? || x.MissingInLine?
    ensures forall x :: x in MismatchLines(issues) ==> x.KeyLine? || x.FileTypeLine?
  {
    if issues != [] {
      SectionLines(issues[..|issues| - 1]);
    }
  }

  /** Every issue is one of the two kinds, so a non-empty list raises one of the flags. */
  lemma SomeFlag(issues: seq<Issue>)
    ensures issues != [] <==> AnyMissing(issues) || AnyMismatch(issues)
  {
    if issues != [] {
      assert issues[0].Missing? || issues[0].TypeMismatch?;
    }
  }

  /**
   * The report opens with the files found and the key count, has the missing
   * and mismatch sections exactly when there are such issues, says that all
   * files are consistent exactly when there is no issue, and ends with a
   * summary whose two counts add up to the number of issues.
   */
  lemma ReportShape(files: seq<ParsedFile>, keyCount: nat, issues: seq<Issue>)
    ensures var rep := Report(files, keyCount, issues);
      && |rep| >= 6
      && rep[..4] == [Title, Rule, FoundFiles(Names(files)), UniqueKeys(keyCount)]
      && rep[|rep| - 2] == Rule
      && rep[|rep| - 1] == Summary(CountMissing(issues), CountMismatch(issues))
      && CountMissing(issues) + CountMismatch(issues) == |issues|
      && (MissingHeading in rep <==> AnyMissing(issues))
      && (MismatchHeading in rep <==> AnyMismatch(issues))
      && (AllConsistent in rep <==> issues == [])
  {
    ReportEnds(files, keyCount, issues);
    ReportSections(files, keyCount, issues);
    ReportConsistent(files, keyCount, issues);
  }

  /** `Report` as its five parts. */
  function ReportParts(files: seq<ParsedFile>, keyCount: nat, issues: seq<Issue>): seq<seq<ReportItem>> {
    [ [Title, Rule, FoundFiles(Names(files)), UniqueKeys(keyCount)],
      if AnyMissing(issues) then [MissingHeading] + MissingLines(issues) + [SectionEnd] else [],
      if AnyMismatch(issues) then [MismatchHeading] + MismatchLines(issues) + [SectionEnd] else [],
      if !AnyMissing(issues) && !AnyMismatch(issues) then [AllConsistent] else [],
      [Rule, Summary(CountMissing(issues), CountMismatch(issues))] ]
  }

  lemma ReportEnds(files: seq<ParsedFile>, keyCount: nat, issues: seq<Issue>)
    ensures var rep := Report(files, keyCount, issues);
      && |rep| >= 6
      && rep[..4] == [Title, Rule, FoundFiles(Names(files)), UniqueKeys(keyCount)]
      && rep[|rep| - 2] == Rule
      && rep[|rep| - 1] == Summary(CountMissing(issues), CountMismatch(issues))
  {
    var p := ReportParts(files, keyCount, issues);
    assert Report(files, keyCount, issues) == p[0] + p[1] + p[2] + p[3] + p[4];
    InParts(Title, p[0], p[1], p[2], p[3], p[4]);
  }

  lemma ReportSections(files: seq<ParsedFile>, keyCount: nat, issues: seq<Issue>)
    ensures var rep := Report(files, keyCount, issues);
      && (MissingHeading in rep <==> AnyMissing(issues))
      && (MismatchHeading in rep <==> AnyMismatch(issues))
  {
    var p := ReportParts(files, keyCount, issues);
    assert Report(files, keyCount, issues) == p[0] + p[1] + p[2] + p[3] + p[4];
    SectionLines(issues);
    InParts(MissingHeading, p[0], p[1], p[2], p[3], p[4]);
    InParts(MismatchHeading, p[0], p[1], p[2], p[3], p[4]);
  }

  lemma ReportConsistent(files: seq<ParsedFile>, keyCount: nat, issues: seq<Issue>)
    ensures AllConsistent in Report(files, keyCount, issues) <==> issues == []
  {
    var p := ReportParts(files, keyCount, issues);
    assert Report(files, keyCount, issues) == p[0] + p[1] + p[2] + p[3] + p[4];
    SectionLines(issues);
    SomeFlag(issues);
    InParts(AllConsistent, p[0], p[1], p[2], p[3], p[4]);
  }

  lemma InParts(x: ReportItem, a: seq<ReportItem>, b: seq<ReportItem>, c: seq<ReportItem>,
                d: seq<ReportItem>, e: seq<ReportItem>)
    ensures x in a + b + c + d + e <==> x in a || x in b || x in c || x in d || x in e
    ensures |a + b + c + d + e| == |a| + |b| + |c| + |d| + |e|
    ensures |e| > 0 ==> (a + b + c + d + e)[|a + b + c + d + e| - 1] == e[|e| - 1]
    ensures |e| > 1 ==> (a + b + c + d + e)[|a + b + c + d + e| - 2] == e[|e| - 2]
    ensures 4 <= |a| ==> (a + b + c + d + e)[..4] == a[..4]
  {
  }

  // ---------------------------------------------------------------------
  // Worked examples
  // ---------------------------------------------------------------------

  /** A file that sets `K` and another that does not: exactly one missing issue, naming the second. */
  lemma MissingExample()
    ensures var files := [ParsedFile("A", [Entry("K", "1")]), ParsedFile("B", [])];
      Issues(files) == [Missing("K", ["B"])] && AnyMissing(Issues(files)) && !AnyMismatch(Issues(files))
  {
    var files := [ParsedFile("A", [Entry("K", "1")]), ParsedFile("B", [])];
    TwoFilesOneKey(files[0], files[1], "K");
    FirstSetOnly(files[0], files[1], "K");
    ExampleValues();
    var types := [FileType("A", Number)];
    assert TypeSet(types) == {Number} by {
      assert types[0].valueType == Number;
    }
    var issues := [Missing("K", ["B"])];
    assert IssuesFor(files, "K") == issues;
    assert issues[0].Missing?;
  }

  /** A boolean in one file and a number in the other is a type mismatch, and not an error. */
  lemma MismatchExample()
    ensures var files := [ParsedFile("A", [Entry("K", "true")]), ParsedFile("B", [Entry("K", "5")])];
      Issues(files) == [TypeMismatch("K", [FileType("A", Boolean), FileType("B", Number)])]
      && !AnyMissing(Issues(files)) && AnyMismatch(Issues(files))
  {
    var files := [ParsedFile("A", [Entry("K", "true")]), ParsedFile("B", [Entry("K", "5")])];
    TwoTypes(files[0], files[1], "K");
    ExampleValues();
    var issues := [TypeMismatch("K", [FileType("A", Boolean), FileType("B", Number)])];
    assert issues[0].TypeMismatch?;
  }

  /** An empty value next to a number is not a mismatch: `empty` silences the comparison. */
  lemma EmptySuppressesExample()
    ensures var files := [ParsedFile("A", [Entry("K", "")]), ParsedFile("B", [Entry("K", "5")])];
      Issues(files) == []
  {
    var files := [ParsedFile("A", [Entry("K", "")]), ParsedFile("B", [Entry("K", "5")])];
    TwoTypes(files[0], files[1], "K");
  }

  /** A line `K=""` keeps its two quotes as the value. */
  lemma QuotedEmptyLine()
    ensures ParseLine("K=\"\"") == Some(Entry("K", "\"\""))
  {
    var q := "\"\"";
    assert "K" + "=" + q == "K=\"\"";
    PlainKey();
    QuotePair();
    LineRoundTrip("K", q);
  }

  /** `K` is a key the line parser keeps as it is. */
  lemma PlainKey()
    ensures Trim("K") == "K" && "K"[0] != '#' && '=' !in "K"
  {
    TrimAround([], "K", []);
    assert [] + "K" + [] == "K";
  }

  /** The two quote characters are a value the line parser keeps as it is. */
  lemma QuotePair()
    ensures var q := "\"\"";
      Trim(q) == q && forall j :: 0 <= j < |q| ==> !IsLineTerminator(q[j])
  {
    var q := "\"\"";
    TrimAround([], q, []);
    assert [] + q + [] == q;
  }

  /** That value is a `string`: next to a number it is a type mismatch, not an empty value. */
  lemma QuotedEmptyExample()
    ensures var files := [ParsedFile("A", [Entry("K", "\"\"")]), ParsedFile("B", [Entry("K", "5")])];
      Issues(files) == [TypeMismatch("K", [FileType("A", String), FileType("B", Number)])]
  {
    var files := [ParsedFile("A", [Entry("K", "\"\"")]), ParsedFile("B", [Entry("K", "5")])];
    TwoTypes(files[0], files[1], "K");
    QuotedEmptyIsString('"', '"');
    ExampleValues();
  }

  /** The types of the values in the examples. */
  lemma ExampleValues()
    ensures DetectType("1") == Number && DetectType("5") == Number
    ensures DetectType("true") == Boolean
  {
    assert StripQuotes("1") == "1";
    assert StripQuotes("5") == "5";
    assert StripQuotes("true") == "true";
  }

  /** Two files, the first setting only `key` and the second `key` or nothing, have the one key `key`. */
  lemma TwoFilesOneKey(a: ParsedFile, b: ParsedFile, key: string)
    requires |a.vars| == 1 && a.vars[0].key == key
    requires b.vars == [] || (|b.vars| == 1 && b.vars[0].key == key)
    ensures AllKeys([a, b]) == [key]
    ensures Issues([a, b]) == IssuesFor([a, b], key)
  {
    assert [a, b][..1] == [a];
    assert [a][..0] == [];
    assert Keys(a.vars) == [key];
    assert [key][..0] == [];
    assert AddAll([], [key]) == [key];
    assert AllKeys([a]) == [key];
    assert Keys(b.vars) == [] || Keys(b.vars) == [key];
    assert AddAll([key], [key]) == [key];
    assert AllKeys([a, b]) == AddAll([key], Keys(b.vars));
    assert IssuesOver([a, b], [key]) == IssuesOver([a, b], []) + IssuesFor([a, b], key);
  }

  /**
   * Two files that each set only `key`: the one issue possible is a mismatch,
   * raised when the two types differ and neither is `empty`.
   */
  lemma TwoTypes(a: ParsedFile, b: ParsedFile, key: string)
    requires |a.vars| == 1 && a.vars[0].key == key
    requires |b.vars| == 1 && b.vars[0].key == key
    ensures var ta := DetectType(a.vars[0].value);
      var tb := DetectType(b.vars[0].value);
      Issues([a, b]) ==
        if ta != tb && ta != Empty && tb != Empty
        then [TypeMismatch(key, [FileType(a.name, ta), FileType(b.name, tb)])]
        else []
  {
    TwoFilesOneKey(a, b, key);
    BothSet(a, b, key);
    var types := TypesOf([a, b], key);
    assert TypeSet(types) == {types[0].valueType, types[1].valueType};
  }

  /** Two files that each set only `key`: none lacks it, and both report a type. */
  lemma BothSet(a: ParsedFile, b: ParsedFile, key: string)
    requires |a.vars| == 1 && a.vars[0].key == key
    requires |b.vars| == 1 && b.vars[0].key == key
    ensures MissingIn([a, b], key) == []
    ensures TypesOf([a, b], key) ==
      [FileType(a.name, DetectType(a.vars[0].value)), FileType(b.name, DetectType(b.vars[0].value))]
  {
    assert [a, b][..1] == [a];
    assert [a][..0] == [];
    GetEntry(a.vars, 0);
    assert TypeIn(a, key) == Some(DetectType(a.vars[0].value));
    assert TypesOf([a], key) == [FileType(a.name, DetectType(a.vars[0].value))];
    GetEntry(b.vars, 0);
    assert TypeIn(b, key) == Some(DetectType(b.vars[0].value));
  }

  /** The first of two files sets only `key` and the second sets nothing. */
  lemma FirstSetOnly(a: ParsedFile, b: ParsedFile, key: string)
    requires |a.vars| == 1 && a.vars[0].key == key && b.vars == []
    ensures MissingIn([a, b], key) == [b.name]
    ensures TypesOf([a, b], key) == [FileType(a.name, DetectType(a.vars[0].value))]
  {
    assert [a, b][..1] == [a];
    assert [a][..0] == [];
    GetEntry(a.vars, 0);
    assert TypeIn(a, key) == Some(DetectType(a.vars[0].value));
    assert TypesOf([a], key) == [FileType(a.name, DetectType(a.vars[0].value))];
    assert TypeIn(b, key) == None by {
      assert Keys(b.vars) == [];
    }
  }

  // ---------------------------------------------------------------------
  // The check, step by step
  // ---------------------------------------------------------------------

  /** The `envFiles.forEach` of src/index.js:84-90: paths that do not exist are skipped. */
  method ParseAll(names: seq<string>, read: map<string, string>) returns (files: seq<ParsedFile>)
    ensures files == Parsed(names, read)
  {
    files := [];
    var i := 0;
    while i < |names|
      invariant 0 <= i <= |names|
      invariant files == Parsed(names[..i], read)
    {
      assert names[..i + 1][..i] == names[..i];
      var vars := LoadEnvFile(read, names[i]);
      if vars.Some? {
        files := files + [ParsedFile(names[i], vars.value)];
      }
      i := i + 1;
    }
    assert names[..i] == names;
  }

  /** The `allKeys` set of src/index.js:102-105, filled file by file and key by key. */
  method CollectKeys(files: seq<ParsedFile>) returns (allKeys: seq<string>)
    ensures allKeys == AllKeys(files)
  {
    allKeys := [];
    var i := 0;
    while i < |files|
      invariant 0 <= i <= |files|
      invariant allKeys == AllKeys(files[..i])
    {
      var keys := Keys(files[i].vars);
      var j := 0;
      while j < |keys|
        invariant 0 <= j <= |keys|
        invariant allKeys == AddAll(AllKeys(files[..i]), keys[..j])
      {
        AddAllSnoc(AllKeys(files[..i]), keys, j);
        if keys[j] !in allKeys {
          allKeys := allKeys + [keys[j]];
        }
        j := j + 1;
      }
      assert keys[..j] == keys;
      AllKeysSnoc(files, i);
      i := i + 1;
    }
    assert files[..i] == files;
  }

  /** One more key is added to the set unless it is already there. */
  lemma AddAllSnoc(acc: seq<string>, keys: seq<string>, j: nat)
    requires j < |keys|
    ensures var r := AddAll(acc, keys[..j]);
      AddAll(acc, keys[..j + 1]) == if keys[j] in r then r else r + [keys[j]]
  {
    assert keys[..j + 1][..j] == keys[..j];
  }

  /** One more file adds its keys to `allKeys`. */
  lemma AllKeysSnoc(files: seq<ParsedFile>, i: nat)
    requires i < |files|
    ensures AllKeys(files[..i + 1]) == AddAll(AllKeys(files[..i]), Keys(files[i].vars))
  {
    assert files[..i + 1][..i] == files[..i];
  }

  /** One more file adds its type, if it sets the key, at the end of `types`. */
  lemma TypesOfSnoc(files: seq<ParsedFile>, i: nat, key: string)
    requires i < |files|
    ensures var f := files[i];
      TypesOf(files[..i + 1], key) ==
      TypesOf(files[..i], key) + (if TypeIn(f, key).Some? then [FileType(f.name, TypeIn(f, key).value)] else [])
  {
    assert files[..i + 1][..i] == files[..i];
  }

  /** One more file adds its name, if it lacks the key, at the end of `missingIn`. */
  lemma MissingInSnoc(files: seq<ParsedFile>, i: nat, key: string)
    requires i < |files|
    ensures var f := files[i];
      MissingIn(files[..i + 1], key) == MissingIn(files[..i], key) + (if key in Keys(f.vars) then [] else [f.name])
  {
    assert files[..i + 1][..i] == files[..i];
  }

  /**
   * The per-key survey of src/index.js:122-134: `presence` and `types` filled
   * file by file, then `missingIn` filtered from the file names.
   */
  method Survey(files: seq<ParsedFile>, key: string) returns (missingIn: seq<string>, types: seq<FileType>)
    ensures missingIn == MissingIn(files, key)
    ensures types == TypesOf(files, key)
  {
    var presence: seq<bool> := [];
    types := [];
    var i := 0;
    while i < |files|
      invariant 0 <= i <= |files|
      invariant |presence| == i
      invariant forall j :: 0 <= j < i ==> presence[j] == TypeIn(files[j], key).Some?
      invariant types == TypesOf(files[..i], key)
    {
      var found := TypeIn(files[i], key);
      presence := presence + [found.Some?];
      if found.Some? {
        types := types + [FileType(files[i].name, found.value)];
      }
      assert types == TypesOf(files[..i + 1], key) by {
        TypesOfSnoc(files, i, key);
      }
      i := i + 1;
    }
    assert files[..i] == files;
    missingIn := FilterMissing(files, key, presence);
  }

  /** `fileNames.filter(f => !presence[f])` (src/index.js:134). */
  method FilterMissing(files: seq<ParsedFile>, key: string, presence: seq<bool>) returns (missingIn: seq<string>)
    requires |presence| == |files|
    requires forall j :: 0 <= j < |files| ==> presence[j] == (key in Keys(files[j].vars))
    ensures missingIn == MissingIn(files, key)
  {
    missingIn := [];
    var i := 0;
    while i < |files|
      invariant 0 <= i <= |files|
      invariant missingIn == MissingIn(files[..i], key)
    {
      MissingInSnoc(files, i, key);
      if !presence[i] {
        missingIn := missingIn + [files[i].name];
      }
      i := i + 1;
    }
    assert files[..i] == files;
  }

  /** The `allKeys.forEach` of src/index.js:121-156: issues are pushed and the flags raised. */
  method Analyse(files: seq<ParsedFile>, keys: seq<string>)
    returns (issues: seq<Issue>, hasErrors: bool, hasMissing: bool, hasTypeMismatch: bool)
    ensures issues == IssuesOver(files, keys)
    ensures hasMissing == AnyMissing(issues) && hasErrors == hasMissing
    ensures hasTypeMismatch == AnyMismatch(issues)
  {
    issues := [];
    hasErrors, hasMissing, hasTypeMismatch := false, false, false;
    var i := 0;
    while i < |keys|
      invariant 0 <= i <= |keys|
      invariant issues == IssuesOver(files, keys[..i])
      invariant hasMissing == AnyMissing(issues) && hasErrors == hasMissing
      invariant hasTypeMismatch == AnyMismatch(issues)
    {
      ghost var before := issues;
      assert IssuesOver(files, keys[..i + 1]) == before + IssuesFor(files, keys[i]) by {
        assert keys[..i + 1][..i] == keys[..i];
      }
      var missing, mismatch;
      issues, missing, mismatch := CheckKey(files, keys[i], issues);
      if missing {
        hasMissing := true;
        hasErrors := true;
      }
      if mismatch {
        hasTypeMismatch := true;
      }
      AnyAppend(before, IssuesFor(files, keys[i]));
      i := i + 1;
    }
    assert keys[..i] == keys;
  }

  /**
   * The callback of `allKeys.forEach` for one key (src/index.js:121-155): the
   * issues it pushes onto `issues` and whether it raises the missing and the
   * mismatch flags.
   */
  method CheckKey(files: seq<ParsedFile>, key: string, issues: seq<Issue>)
    returns (pushed: seq<Issue>, missing: bool, mismatch: bool)
    ensures pushed == issues + IssuesFor(files, key)
    ensures missing == AnyMissing(IssuesFor(files, key))
    ensures mismatch == AnyMismatch(IssuesFor(files, key))
  {
    var missingIn, types := Survey(files, key);
    ghost var missingPart := if 0 < |missingIn| < |files| then [Missing(key, missingIn)] else [];
    ghost var mismatchPart := if IsMismatch(types) then [TypeMismatch(key, types)] else [];
    assert IssuesFor(files, key) == missingPart + mismatchPart;
    pushed := issues;
    missing, mismatch := false, false;
    if 0 < |missingIn| < |files| {
      pushed := pushed + [Missing(key, missingIn)];
      missing := true;
    }
    assert pushed == issues + missingPart;
    ghost var afterMissing := pushed;
    var uniqueTypes := TypeSet(types);
    if |uniqueTypes| > 1 && Empty !in uniqueTypes {
      pushed := pushed + [TypeMismatch(key, types)];
      mismatch := true;
    }
    assert pushed == afterMissing + mismatchPart;
    assert issues + missingPart + mismatchPart == issues + (missingPart + mismatchPart);
    AnyAppend(missingPart, mismatchPart);
    assert missing == AnyMissing(missingPart) by {
      if missing {
        assert missingPart[0].Missing?;
      }
    }
    assert mismatch == AnyMismatch(mismatchPart) by {
      if mismatch {
        assert mismatchPart[0].TypeMismatch?;
      }
    }
  }

  /** The flags of a concatenation are those of its parts. */
  lemma AnyAppend(a: seq<Issue>, b: seq<Issue>)
    ensures AnyMissing(a + b) <==> AnyMissing(a) || AnyMissing(b)
    ensures AnyMismatch(a + b) <==> AnyMismatch(a) || AnyMismatch(b)
  {
    var c := a + b;
    assert forall i :: 0 <= i < |a| ==> c[i] == a[i];
    assert forall i :: 0 <= i < |b| ==> c[|a| + i] == b[i];
  }

  /** The missing-variables lines of src/index.js:161-168. */
  method AppendMissingLines(report: seq<ReportItem>, issues: seq<Issue>) returns (r: seq<ReportItem>)
    ensures r == report + MissingLines(issues)
  {
    r := report;
    var i := 0;
    while i < |issues|
      invariant 0 <= i <= |issues|
      invariant r == report + MissingLines(issues[..i])
    {
      assert issues[..i + 1][..i] == issues[..i];
      ghost var before := r;
      if issues[i].Missing? {
        var fs := issues[i].files;
        r := r + [KeyLine(issues[i].key)];
        var j := 0;
        while j < |fs|
          invariant 0 <= j <= |fs|
          invariant r == before + [KeyLine(issues[i].key)] + FileLines(fs[..j])
        {
          assert FileLines(fs[..j + 1]) == FileLines(fs[..j]) + [MissingInLine(fs[j])];
          r := r + [MissingInLine(fs[j])];
          j := j + 1;
        }
        assert fs[..j] == fs;
      }
      i := i + 1;
    }
    assert issues[..i] == issues;
  }

  /** The type-mismatch lines of src/index.js:174-181. */
  method AppendMismatchLines(report: seq<ReportItem>, issues: seq<Issue>) returns (r: seq<ReportItem>)
    ensures r == report + MismatchLines(issues)
  {
    r := report;
    var i := 0;
    while i < |issues|
      invariant 0 <= i <= |issues|
      invariant r == report + MismatchLines(issues[..i])
    {
      assert issues[..i + 1][..i] == issues[..i];
      ghost var before := r;
      if issues[i].TypeMismatch? {
        var ts := issues[i].types;
        r := r + [KeyLine(issues[i].key)];
        var j := 0;
        while j < |ts|
          invariant 0 <= j <= |ts|
          invariant r == before + [KeyLine(issues[i].key)] + TypeLines(ts[..j])
        {
          assert TypeLines(ts[..j + 1]) == TypeLines(ts[..j]) + [FileTypeLine(ts[j].file, ts[j].valueType)];
          r := r + [FileTypeLine(ts[j].file, ts[j].valueType)];
          j := j + 1;
        }
        assert ts[..j] == ts;
      }
      i := i + 1;
    }
    assert issues[..i] == issues;
  }

  /** The `report +=` steps of src/index.js:108-112 and 158-192. */
  method RenderReport(files: seq<ParsedFile>, keyCount: nat, issues: seq<Issue>,
                      hasErrors: bool, hasMissing: bool, hasTypeMismatch: bool)
    returns (report: seq<ReportItem>)
    requires hasMissing == AnyMissing(issues) && hasErrors == hasMissing
    requires hasTypeMismatch == AnyMismatch(issues)
    ensures report == Report(files, keyCount, issues)
  {
    report := [Title, Rule, FoundFiles(Names(files)), UniqueKeys(keyCount)];
    ghost var header := report;
    if hasMissing {
      report := report + [MissingHeading];
      report := AppendMissingLines(report, issues);
      report := report + [SectionEnd];
    }
    ghost var missingPart := report;
    if hasTypeMismatch {
      report := report + [MismatchHeading];
      report := AppendMismatchLines(report, issues);
      report := report + [SectionEnd];
    }
    ghost var mismatchPart := report;
    if !hasErrors && !hasTypeMismatch {
      report := report + [AllConsistent];
    }
    report := report + [Rule, Summary(CountMissing(issues), CountMismatch(issues))];
  }

  /** `checkEnvFiles(dir)` for a directory with listing `entries` whose existing paths hold `read`. */
  method CheckEnvFiles(entries: seq<string>, read: map<string, string>) returns (result: CheckResult)
    requires Distinct(entries)
    ensures result == ExpectedResult(entries, read)
  {
    var envFiles := FindEnvFiles(entries);
    if |envFiles| == 0 {
      return NoEnvFiles;
    }
    var parsed := ParseAll(envFiles, read);
    if |parsed| == 0 {
      return NoValidFiles;
    }
    var allKeys := CollectKeys(parsed);
    var issues, hasErrors, hasMissing, hasTypeMismatch := Analyse(parsed, allKeys);
    var report := RenderReport(parsed, |allKeys|, issues, hasErrors, hasMissing, hasTypeMismatch);
    result := Checked(hasErrors, hasMissing, hasTypeMismatch, issues, report);
  }
}
