# env-check, modelled in Dafny

`env-check` compares the `.env*` files of a directory. It reports two kinds of problem:

- a variable that some files set and others do not ("missing");
- a variable whose values have different kinds in different files ("type mismatch"), for example a number in one file and a boolean in another.

This project models the four parts of `src/index.js` that do this, once the file system is taken out:

- `parseEnvFile`, the line parser;
- `detectType`, the value classifier;
- the filter and sort of `findEnvFiles`;
- the comparison, flags and report of `checkEnvFiles`.

| file | module | what it holds |
|---|---|---|
| `wrappers.dfy` | `Wrappers` | `Option` |
| `text.dfy` | `Text` | the string operations the code relies on: `trim`, `split` and `startsWith`; `IndexOf`, the search for the first `=` that the line pattern at src/index.js:21 performs; and code-point order, which stands in for `localeCompare` |
| `env_parser.dfy` | `EnvParser` | `parseEnvFile`: the object is an insertion-ordered list of entries with distinct keys |
| `type_detection.dfy` | `TypeDetection` | `detectType`: each regular expression is a hand-written predicate |
| `discovery.dfy` | `Discovery` | `findEnvFiles`, given the directory listing |
| `checker.dfy` | `Checker` | `checkEnvFiles`, given the listing and the contents of the paths that exist |

The imperative parts of the source are methods with loops:

- the `forEach` that fills `vars`;
- the `allKeys` set;
- the per-key `presence`/`types` survey and the `missingIn` filter;
- the issue loop with its three flags;
- the report that grows line by line.

Each of these methods is proved equal to a specification function. The properties below are proved about those functions.

Assumptions about the runtime:

- `trim` removes exactly the ECMAScript white-space and line-terminator characters, Unicode ones included.
- `.` in the line pattern does not match a line terminator. So a value with an interior `\r`, U+2028 or U+2029 makes its line contribute nothing.
- `localeCompare` is taken as plain code-point lexicographic order.
- Strings are sequences of code points.

Two behaviours of the code worth knowing:

1. Quote stripping (src/index.js:39) removes one leading quote and one trailing quote independently. The two need not match, and a lone quote at either end is removed too (`StripQuotesCases`).
2. A file line `K=""` gives the value `""`, the two quote characters. `empty` is decided before quotes are stripped, so that value is a `string` (`QuotedEmptyLine`, `QuotedEmptyIsString`). Next to a number it is a type mismatch (`QuotedEmptyExample`). Only a truly empty value, as in `K=`, is `empty` and silences the mismatch check (`EmptySuppressesExample`).

## Model

| member | source | states |
|---|---|---|
| Text.IsLineTerminator | src/index.js:16-21 | the ECMAScript line terminators: line feed, carriage return, U+2028 and U+2029; `trim` removes them and `.` does not match them |
| Text.IsWhiteSpace | src/index.js:16 | the ECMAScript white-space set that `trim` removes: tab, vertical tab, form feed, space, no-break space, the byte-order mark and the other space separators |
| Text.Trim | src/index.js:16 | the result is a slice with no trimmable character at either end; an empty result means the line was all white space |
| Text.TrimAround | src/index.js:16 | trimming white-space padding around a string with non-white ends gives exactly that string |
| Text.TrimIdempotent | src/index.js:16-24 | trimming an already trimmed line, key or value changes nothing |
| Text.IndexOf | src/index.js:21 | the position of the first occurrence of the character, or none exactly when it does not occur |
| Text.Split | src/index.js:15 | `split('\n')` gives at least one piece, no piece holds a newline, and joining the pieces with newlines gives the content back |
| Text.SplitJoin | src/index.js:15 | splitting newline-free lines joined by newlines gives those lines back |
| Text.StartsWith | src/index.js:19 | `startsWith`: the string begins with the prefix; used for the `#` test and, at src/index.js:56, for the `.env` filter |
| Text.LexCompare | src/index.js:66 | the comparison is negative exactly for lexicographically smaller names and zero exactly for equal ones |
| Text.LexIrreflexive | src/index.js:66 | no name is smaller than itself |
| Text.LexTotal | src/index.js:66 | of two different names one is smaller |
| Text.LexAsymmetric | src/index.js:66 | no two names are each smaller than the other |
| Text.LexTransitive | src/index.js:66 | lexicographic order is transitive |
| EnvParser.Get | src/index.js:126-127 | `parsed[f][key]` is defined exactly when the key is one of the object's keys |
| EnvParser.GetEntry | src/index.js:126 | with distinct keys, looking up an entry's key gives that entry's value |
| EnvParser.Put | src/index.js:25 | after `vars[key] = value` the key maps to the value, every other key is unchanged, a known key keeps its place, a new key goes last, and keys stay distinct |
| EnvParser.ParseLine | src/index.js:16-26 | blank lines, `#` comments, lines with no `=` and lines that start with `=` give nothing; a line that gives an entry splits at its first `=`, and key and value are the trimmed parts |
| EnvParser.ParseTrimmedLine | src/index.js:21-24 | a trimmed line whose first `=` is after a non-empty key, with no line terminator after it, gives the trimmed key and value |
| EnvParser.TerminatorInValue | src/index.js:21-24 | a line terminator after the first `=` of the trimmed line, such as an interior carriage return, makes the line give nothing |
| EnvParser.LineRoundTrip | src/index.js:16-25 | writing a well-formed key and value as `key=value` and parsing the line gives the same key and value back; the value may be empty or contain `=` |
| EnvParser.ParseLines | src/index.js:15-27 | the object built from the lines has distinct keys |
| EnvParser.Step | src/index.js:16-26 | one line of the `forEach`: an entry line assigns its key, any other line leaves the object as it is |
| EnvParser.ParseContent | src/index.js:15-27 | the object built from the file's lines, split at `\n`, in order |
| EnvParser.ContentLastWins | src/index.js:15-29 | every key of the parsed content has the value of the last line that sets it, and is absent when no line sets it |
| EnvParser.LastDuplicateWins | src/index.js:15-27 | the same, for any list of lines |
| EnvParser.AppendEntryLine | src/index.js:21-25 | one more line that parses as `key=value` sets that key to that value and leaves every other key as it was |
| EnvParser.SkippedLineIrrelevant | src/index.js:16-19 | a line that gives no entry can be deleted anywhere in the file without changing the result |
| EnvParser.ParseEnvFile | src/index.js:13-29 | the loop builds the object of the content: distinct keys, each with its last value |
| EnvParser.LoadEnvFile | src/index.js:7-30 | `null` exactly when the file does not exist; otherwise the object parsed from its content |
| TypeDetection.DetectType | src/index.js:35-36 | `empty` exactly for the empty string |
| TypeDetection.StripQuotes | src/index.js:39 | the quote-stripping `replace`: removes one quote character at the start and one at the end, each on its own |
| TypeDetection.StripQuotesCases | src/index.js:39 | one quote goes from each end, on its own, whichever quotes they are; an unquoted value is unchanged |
| TypeDetection.Unquoted | src/index.js:39 | a value with no quote at either end is unchanged by quote stripping |
| TypeDetection.IsDigits | src/index.js:42 | `/^\d+$/`: one or more ASCII digits and nothing else |
| TypeDetection.IsUrlText | src/index.js:43 | `/^https?:\/\/.+/`: `http://` or `https://` followed by at least one character that is not a line terminator |
| TypeDetection.IsEmailText | src/index.js:44 | `/^[\w.-]+@[\w.-]+\.\w+$/`: word, dot or dash characters, an `@`, more of them, and a last dot followed by word characters to the end |
| TypeDetection.IsIpPrefix | src/index.js:45 | `/^\d+\.\d+\.\d+\.\d+/`: four dot-separated digit groups at the start, with anything after |
| TypeDetection.ShapesDisjoint | src/index.js:41-45 | the boolean, number and url shapes exclude each other and all later shapes |
| TypeDetection.UrlIsNotEmail | src/index.js:43-44 | a url-shaped value is never email-shaped, because of the `:` in its scheme |
| TypeDetection.NoAtSignNoEmail | src/index.js:44 | a value without `@` is never email-shaped |
| TypeDetection.EmailAt | src/index.js:44 | an `@` and a later dot with local, domain and word characters around them make the email shape |
| TypeDetection.DetectTypeByShape | src/index.js:41-47 | for a non-empty value, each label is given exactly when its own shape matches the quote-stripped value; `ip` needs the email shape to fail, and `string` needs every shape to fail |
| TypeDetection.QuotesIgnored | src/index.js:39-47 | quotes on one side or both, matching or not, do not change the label of a value without quotes at its ends |
| TypeDetection.QuotedEmptyIsString | src/index.js:36-47 | a value of two quotes, or of one quote, is a `string` and not `empty` |
| TypeDetection.DetectTypeVectors | test/test.js:7-15 | the seven test vectors, `"8080"` as a number (the value at demo.js:35) and `''` as empty |
| TypeDetection.EmailBeforeIp | src/index.js:44-45 | where shapes overlap the earlier rule wins: `1.2.3.4@host.io` has the ip prefix but is an email |
| TypeDetection.IpPrefixExtends | src/index.js:45 | the ip rule is anchored at the start only: anything may follow four dotted digit groups |
| Discovery.FilterEnv | src/index.js:56 | the kept names are exactly the listed names starting with `.env`, none more often than in the listing, so a listing without repeats gives kept names without repeats |
| Discovery.Comparator | src/index.js:58-67 | the sort callback: `.env.example` first, then `.env`, then code-point order |
| Discovery.ComparatorAntisymmetric | src/index.js:58-67 | on two different names the comparator is never zero and answers the same way round both ways |
| Discovery.PrecedesTotal | src/index.js:58-67 | of two different names exactly one goes first |
| Discovery.PrecedesTransitive | src/index.js:58-67 | the comparator's order is transitive, so it is a strict total order and the sort is determined |
| Discovery.Insert | src/index.js:58-67 | inserting a name into an ordered list keeps it ordered and adds exactly that name |
| Discovery.SortNames | src/index.js:58-67 | the sorted names are a permutation of the kept names, in strictly ascending comparator order |
| Discovery.SortedUnique | src/index.js:58-67 | two ordered arrangements of the same names are equal: whatever algorithm the runtime's sort uses, one result is possible |
| Discovery.FindEnvFiles | src/index.js:55-67 | the result holds exactly the `.env*` names of the listing, each once, as a permutation of the filtered list, in comparator order |
| Discovery.ExampleFirst | src/index.js:62-63 | `.env.example` goes before every other name |
| Discovery.BaseNext | src/index.js:64-65 | `.env` goes before every name except `.env.example` |
| Discovery.OthersLexicographic | src/index.js:66 | between other names the order is lexicographic |
| Discovery.FindEnvFilesOrder | src/index.js:59-66 | in the result `.env.example` is first if listed, `.env` comes right after it (or first), and every later pair of other names is in lexicographic order |
| Discovery.FindEnvFilesUnique | src/index.js:55-67 | any strictly ordered permutation of the kept names is the result |
| Checker.Names | src/index.js:92 | `fileNames`: the names of the parsed files, in order |
| Checker.TypeIn | src/index.js:126-129 | the type `detectType` gives the key's value in one file, or none when the file lacks the key |
| Checker.Parsed | src/index.js:84-90 | `parsed` holds exactly the found files whose paths exist, each with the object parsed from its content, under distinct names |
| Checker.AddAll | src/index.js:104 | adding keys to the set gives the old keys and the new ones, without repeats |
| Checker.AllKeys | src/index.js:101-105 | `allKeys` holds each key that some file sets, once |
| Checker.MissingIn | src/index.js:134 | `missingIn` names no more files than there are |
| Checker.MissingInMembers | src/index.js:134 | `missingIn` names exactly the files that lack the key |
| Checker.MissingInCount | src/index.js:134-135 | `missingIn` is empty exactly when every file sets the key, and full exactly when none does |
| Checker.TypesOf | src/index.js:122-131 | `types`: for each file in order that sets the key, its name with the type of the value |
| Checker.TypesOfMembers | src/index.js:123-131 | `types` has an entry exactly for each file that sets the key, holding the type of its value there |
| Checker.TypeOrigin | src/index.js:128-130 | every entry of `types` comes from a file that sets the key to a value of that type |
| Checker.TypeListed | src/index.js:128-130 | every file that sets the key has its entry in `types` |
| Checker.TypeInSome | src/index.js:126-130 | a file has a type for the key exactly when it sets the key |
| Checker.TypesOfCount | src/index.js:125-134 | each file either lacks the key or has one entry in `types` |
| Checker.CountMissing | src/index.js:191 | the missing count is zero exactly when there is no missing issue |
| Checker.CountMismatch | src/index.js:191-192 | the two summary counts add up to the number of issues; the mismatch count is zero exactly when there is no mismatch issue |
| Checker.IssuesFor | src/index.js:133-155 | the issues pushed for one key: the missing issue first, if any, then the mismatch issue, if any |
| Checker.IssuesOver | src/index.js:119-156 | `issues` after the loop over the given keys: each key's issues, in key order |
| Checker.Issues | src/index.js:119-156 | `issues` for the parsed files, taken over `allKeys` |
| Checker.AnyMissing | src/index.js:141 | the final `hasMissing`: some issue is a missing issue |
| Checker.AnyMismatch | src/index.js:154 | the final `hasTypeMismatch`: some issue is a mismatch issue |
| Checker.IssueOrigin | src/index.js:121-156 | every issue was pushed by the check of one of the keys |
| Checker.IssueReached | src/index.js:121-156 | every issue the check of a key pushes is in the final list |
| Checker.MissingPushed | src/index.js:134-143 | the check of one key pushes a missing issue exactly when some but not all files lack the key, and the issue's list is `missingIn` |
| Checker.MissingIssueIff | src/index.js:133-143 | a missing issue for a key exists exactly when one file sets the key and another lacks it, and its file list is exactly the files that lack it, in file order |
| Checker.MismatchIssueIff | src/index.js:145-155 | a mismatch issue for a key exists exactly when its types form a mismatch, and it carries exactly the key's `types` |
| Checker.TypeSet | src/index.js:146-147 | `uniqueTypes`: the set of types in `types` |
| Checker.IsMismatch | src/index.js:148 | more than one unique type, and none of them `empty` |
| Checker.TypeSetMembers | src/index.js:146-147 | `uniqueTypes` holds exactly the types the files give the key's values |
| Checker.TypeSource | src/index.js:146-147 | each type in `uniqueTypes` is the type of the key's value in some file |
| Checker.TypeReached | src/index.js:146-147 | the type of the key's value in each file that sets it is in `uniqueTypes` |
| Checker.MismatchMeaning | src/index.js:146-148 | the mismatch rule in terms of files: two files give the key's values different types, and no file has it empty |
| Checker.DistinctTypesMeaning | src/index.js:147-148 | more than one unique type exactly when two files give the key's values different types |
| Checker.EmptyTypeMeaning | src/index.js:148 | `empty` is among the types exactly when some file sets the key to the empty string |
| Checker.IssueKeys | src/index.js:121-156 | every issue is about one of the checked keys |
| Checker.IssuesOfOneKey | src/index.js:133-155 | one key yields at most two issues, both about that key; when there are two, the missing issue comes first |
| Checker.IssuesGroupedByKey | src/index.js:121-156 | over distinct keys, two issues about the same key are that key's missing issue followed by its mismatch issue |
| Checker.AnyMissingIff | src/index.js:133-143 | there is a missing issue exactly when some key is set in one file and absent from another |
| Checker.AnyMismatchIff | src/index.js:145-155 | there is a mismatch issue exactly when some key's types form a mismatch |
| Checker.ExpectedResult | src/index.js:73-201 | the outcome of `checkEnvFiles`: the two early returns, or the three flags, the issues and the report |
| Checker.ResultFlags | src/index.js:114-116 | `hasErrors` is true exactly when some key is missing somewhere; `hasMissing` equals `hasErrors`; `hasTypeMismatch` is true exactly when some key's types form a mismatch, so mismatches never set `hasErrors` |
| Checker.EarlyReturns | src/index.js:76-99 | "no .env files" exactly when no listed name starts with `.env`; "no valid files" exactly when some do but none of their paths exists; neither reports an error |
| Checker.MissingLines | src/index.js:161-168 | for each missing issue in order, its key line followed by its file lines; mismatch issues add nothing |
| Checker.FileLines | src/index.js:165-167 | one "Missing in" line per file, in order |
| Checker.MismatchLines | src/index.js:174-181 | for each mismatch issue in order, its key line followed by its file-type lines; missing issues add nothing |
| Checker.TypeLines | src/index.js:178-180 | one file-type line per entry of `types`, in order |
| Checker.SectionLines | src/index.js:161-181 | the missing section holds only key lines and lines naming a file; the mismatch section holds only key lines and file-type lines, so neither holds a heading |
| Checker.SomeFlag | src/index.js:185-187 | there are issues exactly when one of the two kinds is present |
| Checker.Report | src/index.js:108-192 | the report items in the order they are appended |
| Checker.ReportShape | src/index.js:108-192 | the report opens with the file names and the key count, has the missing and mismatch sections exactly when there are such issues, has the all-clear line exactly when there are no issues, and ends with the two counts, which add up to the number of issues |
| Checker.ReportEnds | src/index.js:108-112 | the report opens with title, rule, files and key count, and ends with the summary |
| Checker.ReportSections | src/index.js:159-183 | each section heading is present exactly when there is an issue of its kind |
| Checker.ReportConsistent | src/index.js:185-187 | the all-clear line is present exactly when there are no issues |
| Checker.MissingExample | src/index.js:133-143 | a file that sets `K` next to one that does not: one missing issue naming the second file, and an error |
| Checker.MismatchExample | src/index.js:145-155 | `K=true` next to `K=5`: one mismatch issue listing `boolean` and `number`, and no missing issue, so no error |
| Checker.EmptySuppressesExample | src/index.js:148 | `K=` next to `K=5`: no issue at all |
| Checker.QuotedEmptyLine | src/index.js:21-25 | the line `K=""` gives the key `K` with the two quote characters as value |
| Checker.QuotedEmptyExample | src/index.js:36-48 | that value next to `K=5` is a mismatch of `string` and `number` |
| Checker.TwoTypes | src/index.js:121-155 | for two files that each set only one key, the one possible issue is a mismatch, raised exactly when the two types differ and neither is `empty` |
| Checker.ParseAll | src/index.js:84-90 | the loop builds `parsed`, skipping paths that do not exist |
| Checker.CollectKeys | src/index.js:102-105 | the nested loops build `allKeys` |
| Checker.Survey | src/index.js:122-134 | the loop fills `presence` and `types` file by file, giving exactly `types`, then the filter gives exactly `missingIn` |
| Checker.FilterMissing | src/index.js:134 | given a `presence` list that records, file by file, whether the key is set, the filter gives exactly `missingIn` |
| Checker.CheckKey | src/index.js:133-155 | checking one key appends exactly that key's issues and says whether a missing or a mismatch issue was pushed |
| Checker.Analyse | src/index.js:114-156 | the loop over `allKeys` pushes every key's issues in key order; `hasMissing` and `hasErrors` are raised exactly when a missing issue was pushed, and `hasTypeMismatch` exactly when a mismatch issue was |
| Checker.AppendMissingLines | src/index.js:159-170 | the missing section lists each missing issue's key followed by the files that lack it |
| Checker.AppendMismatchLines | src/index.js:172-183 | the mismatch section lists each mismatch issue's key followed by each file's type |
| Checker.RenderReport | src/index.js:107-192 | the report built line by line is the report whose shape `ReportShape` states |
| Checker.CheckEnvFiles | src/index.js:73-201 | the whole check returns the result that `EarlyReturns`, `ResultFlags`, `MissingIssueIff`, `MismatchIssueIff` and `ReportShape` describe |

## Left out

- File-system access is not modelled: `fs.existsSync`, `fs.readFileSync` and `fs.readdirSync`. The directory listing and the contents of the listed paths that exist are inputs instead: `entries` and `read`.
- A read failure on a path that exists is not modelled. `fs.readFileSync` (src/index.js:12) throws for such a path, for example a directory named `.env.d` that passes the `.env` filter, and `checkEnvFiles` aborts with that exception. The model covers only paths that exist and can be read, which are in `read`, and paths that do not exist, which are absent from it. So "no valid files" covers only the case where no kept name exists, for example when every kept name is a dangling symbolic link.
- `path.join` and `path.basename` are not modelled. The names are handled as base names throughout, which is what the comparator and `parsed` use.
- `CheckEnvFiles`, `ExpectedResult`, `ResultFlags`, `EarlyReturns`, `FindEnvFiles`, `FindEnvFilesOrder` and `FindEnvFilesUnique` require the listing to have distinct names. A directory listing has that property.
- `Discovery.SortNames` is an insertion sort standing in for `Array.prototype.sort`. Since the comparator is a strict total order on distinct names (`SortedUnique`), any correct sort gives this result.
- `localeCompare` collation is not modelled. It depends on the locale, and code-point order is used instead.
- `Object.keys` enumerates integer-like keys such as `123` first, in numeric order. This is not modelled: keys keep insertion order. File names all start with `.env`, so this reordering can only affect variable keys: their order in `allKeys`, and therefore the order of the issues.
- Keys that clash with `Object.prototype` are not modelled. Examples are `constructor`, `toString` and `__proto__`. In JavaScript, a lookup `parsed[f][key]` finds the inherited member, and `detectType` then fails on a non-string. The model treats objects as plain maps.
- Strings are sequences of code points, not UTF-16 code units.
- The byte-exact report text is not modelled: emoji, the 50-character rule, spacing. The report is the sequence of its items, in the order they are appended.
- The CLI exit code (`bin/cli.js:10`, `hasErrors ? 1 : 0`) and console output are not modelled. `HasErrors` is the value it tests.
- `demo.js` is file-system setup and printing. It is not part of this model; only its value `"8080"` appears among the vectors.
