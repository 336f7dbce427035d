/**
 * `parseEnvFile` (src/index.js:7-30) once the file has been read: the content
 * is split into lines, each line is trimmed, blank lines and `#` comments are
 * skipped, a line of the shape `key=value` is split at its first `=` and the
 * key is set to the value, a later line with the same key overwriting the
 * earlier one.
 *
 * The resulting JavaScript object is modelled as an insertion-ordered list of
 * entries with distinct keys: overwriting keeps the key in its place, a new
 * key goes at the end.
 */
module EnvParser {

  import opened Wrappers
  import opened Text

  datatype Entry = Entry(key: string, value: string)

  /** The key/value object a file parses into, in insertion order. */
  type Env = seq<Entry>

  function Keys(env: Env): seq<string> {
    seq(|env|, i requires 0 <= i < |env| => env[i].key)
  }

  predicate DistinctKeys(env: Env) {
    forall i, j :: 0 <= i < j < |env| ==> env[i].key != env[j].key
  }

  /** The position of the entry for `key`, if any (the first one; with distinct keys the only one). */
  function FindKey(env: Env, key: string): (r: Option<nat>)
    ensures r.None? <==> key !in Keys(env)
    ensures r.Some? ==> r.value < |env| && env[r.value].key == key
    ensures r.Some? ==> forall j :: 0 <= j < r.value ==> env[j].key != key
  {
    if env == [] then None
    else if env[0].key == key then
      assert Keys(env)[0] == key;
      Some(0)
    else
      assert forall j :: 0 < j < |env| ==> env[j] == env[1..][j - 1];
      assert Keys(env) == [env[0].key] + Keys(env[1..]);
      match FindKey(env[1..], key)
      case None => None
      case Some(i) => Some(i + 1)
  }

  /** The position found depends on the keys alone. */
  lemma FindKeySameKeys(a: Env, b: Env, key: string)
    requires Keys(a) == Keys(b)
    ensures FindKey(a, key) == FindKey(b, key)
  {
    assert |a| == |Keys(a)| == |b|;
    forall j | 0 <= j < |a| ensures a[j].key == b[j].key {
      assert Keys(a)[j] == Keys(b)[j];
    }
    var ra, rb := FindKey(a, key), FindKey(b, key);
    if ra.Some? && rb.Some? {
      assert rb.value >= ra.value by {
        assert forall j :: 0 <= j < ra.value ==> b[j].key != key;
      }
      assert ra.value >= rb.value by {
        assert forall j :: 0 <= j < rb.value ==> a[j].key != key;
      }
    }
  }

  /** Appending an entry for another key does not move the entry found. */
  lemma FindKeyAppend(env: Env, e: Entry, key: string)
    requires e.key != key
    ensures FindKey(env + [e], key) == FindKey(env, key)
  {
    var r := env + [e];
    assert forall j :: 0 <= j < |env| ==> r[j] == env[j] && Keys(env)[j] == env[j].key;
    assert forall j :: 0 <= j < |r| ==> Keys(r)[j] == r[j].key;
    if FindKey(r, key).None? {
      assert forall j :: 0 <= j < |env| ==> Keys(env)[j] != key by {
        assert forall j :: 0 <= j < |env| ==> Keys(r)[j] != key;
      }
    }
  }

  /** `vars[key]`: the value stored under `key`, if any. */
  function Get(env: Env, key: string): (r: Option<string>)
    ensures r.Some? <==> key in Keys(env)
  {
    match FindKey(env, key)
    case None => None
    case Some(i) => Some(env[i].value)
  }

  /** With distinct keys, an entry in the list is what `Get` finds. */
  lemma GetEntry(env: Env, i: nat)
    requires DistinctKeys(env) && i < |env|
    ensures Get(env, env[i].key) == Some(env[i].value)
  {
    assert Keys(env)[i] == env[i].key;
  }

  /** `vars[key] = value`: overwrite in place when the key is there, append otherwise. */
  function Put(env: Env, key: string, value: string): (r: Env)
    ensures Get(r, key) == Some(value)
    ensures forall k :: k != key ==> Get(r, k) == Get(env, k)
    ensures Keys(r) == if key in Keys(env) then Keys(env) else Keys(env) + [key]
    ensures DistinctKeys(env) ==> DistinctKeys(r)
  {
    match FindKey(env, key)
    case Some(i) =>
      var r := env[i := Entry(key, value)];
      assert Keys(r) == Keys(env);
      assert Keys(r)[i] == key;
      forall k | k != key ensures Get(r, k) == Get(env, k) {
        FindKeySameKeys(r, env, k);
      }
      r
    case None =>
      var r := env + [Entry(key, value)];
      assert Keys(r) == Keys(env) + [key];
      assert Keys(r)[|env|] == key;
      assert forall j :: 0 <= j < |env| ==> Keys(env)[j] == env[j].key;
      forall k | k != key ensures Get(r, k) == Get(env, k) {
        FindKeyAppend(env, Entry(key, value), k);
        assert forall j :: 0 <= j < |env| ==> r[j] == env[j];
      }
      r
  }

  /**
   * One line of the file: `None` for a line that contributes no key, with the
   * regular expression `^([^=]+)=(.*)$` written out by hand (src/index.js:16-24):
   * the part before the first `=` must be non-empty and, since `.` stops at line
   * terminators, the part after it must hold none.
   */
  function ParseLine(line: string): (r: Option<Entry>)
    ensures Trim(line) == [] || Trim(line)[0] == '#' ==> r.None?
    ensures '=' !in Trim(line) || Trim(line)[0] == '=' ==> r.None?
    ensures r.Some? ==>
      var t := Trim(line);
      exists i :: 0 < i < |t| && t[i] == '=' && '=' !in t[..i]
        && r.value == Entry(Trim(t[..i]), Trim(t[i + 1..]))
  {
    var t := Trim(line);
    if t == [] || t[0] == '#' then None
    else
      match IndexOf(t, '=')
      case None => None
      case Some(i) =>
        if i == 0 || (exists j :: i < j < |t| && IsLineTerminator(t[j])) then None
        else Some(Entry(Trim(t[..i]), Trim(t[i + 1..])))
  }

  /** A well-formed entry, written out as `key=value`, reads back as that entry. */
  lemma LineRoundTrip(key: string, value: string)
    requires key != [] && Trim(key) == key && key[0] != '#' && '=' !in key
    requires Trim(value) == value && forall j :: 0 <= j < |value| ==> !IsLineTerminator(value[j])
    ensures ParseLine(key + "=" + value) == Some(Entry(key, value))
  {
    var s := key + "=" + value;
    var i := |key|;
    EntryLineShape(key, value);
    ParseTrimmedLine(s, i);
  }

  lemma EntryLineShape(key: string, value: string)
    requires key != [] && Trim(key) == key && '=' !in key
    requires Trim(value) == value && forall j :: 0 <= j < |value| ==> !IsLineTerminator(value[j])
    ensures var s := key + "=" + value;
      && s[..|key|] == key && s[|key| + 1..] == value
      && Trim(s) == s && IndexOf(s, '=') == Some(|key|)
      && forall j :: |key| < j < |s| ==> !IsLineTerminator(s[j])
  {
    var s := key + "=" + value;
    var i := |key|;
    assert s[..i] == key && s[i] == '=' && s[i + 1..] == value;
    FirstEquals(key, value);
    forall j | i < j < |s| ensures !IsLineTerminator(s[j]) {
      assert s[j] == value[j - i - 1];
    }
    TrimEntryLine(key, value);
  }

  /** The first `=` of `key=value` is the one after a key without `=`. */
  lemma FirstEquals(key: string, value: string)
    requires '=' !in key
    ensures IndexOf(key + "=" + value, '=') == Some(|key|)
  {
    var s := key + "=" + value;
    assert s[..|key|] == key && s[|key|] == '=';
    assert '=' in s;
    var r := IndexOf(s, '=').value;
    assert forall j :: 0 <= j < |key| ==> s[j] == key[j];
    assert forall j :: 0 <= j < r ==> s[..r][j] == s[j];
  }

  lemma TrimEntryLine(key: string, value: string)
    requires key != [] && Trim(key) == key && Trim(value) == value
    ensures Trim(key + "=" + value) == key + "=" + value
  {
    var s := key + "=" + value;
    assert s[0] == key[0];
    assert s[|s| - 1] == if value == [] then '=' else value[|value| - 1];
    TrimAround([], s, []);
    assert [] + s + [] == s;
  }

  /** An already trimmed line whose first `=` is at `i > 0` and whose value part has no line terminator. */
  lemma ParseTrimmedLine(line: string, i: nat)
    requires Trim(line) == line && line != [] && line[0] != '#'
    requires IndexOf(line, '=') == Some(i) && i > 0
    requires forall j :: i < j < |line| ==> !IsLineTerminator(line[j])
    ensures ParseLine(line) == Some(Entry(Trim(line[..i]), Trim(line[i + 1..])))
  {
  }

  /**
   * A line terminator anywhere after the first `=` of the trimmed line, such as
   * an interior `\r`, keeps `.*` from reaching the end: the line gives nothing.
   */
  lemma TerminatorInValue(line: string, i: nat, j: nat)
    requires IndexOf(Trim(line), '=') == Some(i) && i < j < |Trim(line)|
    requires IsLineTerminator(Trim(line)[j])
    ensures ParseLine(line).None?
  {
  }

  /** The object after one more line has been read. */
  function Step(env: Env, line: string): Env {
    match ParseLine(line)
    case None => env
    case Some(e) => Put(env, e.key, e.value)
  }

  /** The object built from the lines in order (the `forEach` of src/index.js:15-27). */
  function ParseLines(lines: seq<string>): (env: Env)
    ensures DistinctKeys(env)
  {
    if lines == [] then []
    else Step(ParseLines(lines[..|lines| - 1]), lines[|lines| - 1])
  }

  /** What reading a whole file's content produces. */
  function ParseContent(content: string): Env {
    ParseLines(Split(content, '\n'))
  }

  /** Reference definition: the value of the LAST line that parses with this key. */
  function LastValue(lines: seq<string>, key: string): Option<string> {
    if lines == [] then None
    else
      var e := ParseLine(lines[|lines| - 1]);
      if e.Some? && e.value.key == key then Some(e.value.value)
      else LastValue(lines[..|lines| - 1], key)
  }

  /** The last duplicate wins: every key maps to the value of its last entry line. */
  lemma {:induction false} LastDuplicateWins(lines: seq<string>, key: string)
    ensures Get(ParseLines(lines), key) == LastValue(lines, key)
  {
    if lines != [] {
      LastDuplicateWins(lines[..|lines| - 1], key);
    }
  }

  /** Every key of a file's content has the value of its last line. */
  lemma ContentLastWins(content: string)
    ensures forall key :: Get(ParseContent(content), key) == LastValue(Split(content, '\n'), key)
  {
    forall key ensures Get(ParseContent(content), key) == LastValue(Split(content, '\n'), key) {
      LastDuplicateWins(Split(content, '\n'), key);
    }
  }

  /** Reading one more line is one more `Step`. */
  lemma ParseLinesSnoc(lines: seq<string>, line: string)
    ensures ParseLines(lines + [line]) == Step(ParseLines(lines), line)
  {
    assert (lines + [line])[..|lines|] == lines;
  }

  /** A line that contributes no key can be dropped from anywhere in the file. */
  lemma {:induction false} SkippedLineIrrelevant(before: seq<string>, line: string, after: seq<string>)
    requires ParseLine(line).None?
    ensures ParseLines(before + [line] + after) == ParseLines(before + after)
  {
    if after == [] {
      assert ParseLines(before + [line] + after) == ParseLines(before) by {
        ParseLinesSnoc(before, line);
        assert before + [line] + after == before + [line];
      }
      assert before + after == before;
    } else {
      var init := after[..|after| - 1];
      var last := after[|after| - 1];
      SkippedLineIrrelevant(before, line, init);
      SnocCongruence(before + [line] + init, before + init, last);
      SplitLast(before + [line], after);
      SplitLast(before, after);
    }
  }

  /** Splitting the last line off the tail of a file. */
  lemma SplitLast(p: seq<string>, s: seq<string>)
    requires s != []
    ensures p + s == p + s[..|s| - 1] + [s[|s| - 1]]
  {
    assert s == s[..|s| - 1] + [s[|s| - 1]];
  }

  /** Reading the same line after two readings that agree keeps them agreeing. */
  lemma SnocCongruence(a: seq<string>, b: seq<string>, line: string)
    requires ParseLines(a) == ParseLines(b)
    ensures ParseLines(a + [line]) == ParseLines(b + [line])
  {
    ParseLinesSnoc(a, line);
    ParseLinesSnoc(b, line);
  }

  /** Appending an entry line sets its key, leaves every other key untouched and keeps the key order. */
  lemma AppendEntryLine(lines: seq<string>, line: string, key: string, value: string)
    requires ParseLine(line) == Some(Entry(key, value))
    ensures Get(ParseLines(lines + [line]), key) == Some(value)
    ensures forall k :: k != key ==> Get(ParseLines(lines + [line]), k) == Get(ParseLines(lines), k)
    ensures Keys(ParseLines(lines + [line])) ==
      if key in Keys(ParseLines(lines)) then Keys(ParseLines(lines)) else Keys(ParseLines(lines)) + [key]
  {
    assert (lines + [line])[..|lines|] == lines;
  }

  /**
   * `parseEnvFile` on content that has been read: the loop over the lines
   * fills `vars` one line at a time.
   */
  method ParseEnvFile(content: string) returns (vars: Env)
    ensures vars == ParseContent(content)
    ensures DistinctKeys(vars)
    ensures forall key :: Get(vars, key) == LastValue(Split(content, '\n'), key)
  {
    var lines := Split(content, '\n');
    vars := [];
    var i := 0;
    while i < |lines|
      invariant 0 <= i <= |lines|
      invariant vars == ParseLines(lines[..i])
    {
      ParseLinesSnoc(lines[..i], lines[i]);
      assert lines[..i + 1] == lines[..i] + [lines[i]];
      var entry := ParseLine(lines[i]);
      if entry.Some? {
        vars := Put(vars, entry.value.key, entry.value.value);
      }
      i := i + 1;
    }
    assert lines[..i] == lines;
    ContentLastWins(content);
  }

  /**
   * `parseEnvFile(filePath)` with the file system given as the contents of the
   * files that exist: `null` for a path that does not exist, otherwise the
   * object its content parses into.
   */
  method LoadEnvFile(existing: map<string, string>, path: string) returns (vars: Option<Env>)
    ensures path !in existing <==> vars.None?
    ensures path in existing ==> vars == Some(ParseContent(existing[path]))
  {
    if path !in existing {
      return None;
    }
    var parsed := ParseEnvFile(existing[path]);
    vars := Some(parsed);
  }
}
