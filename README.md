# modules2tuple in Dafny

modules2tuple reads the `vendor/modules.txt` written by `go mod vendor` and
prints the `GH_TUPLE` block of a FreeBSD port. Every line of the form
`# <name> <version>` (or `# <old> <version> => <new> <version>`) names a
module. For each one the tool:

- resolves the module's GitHub account and project, through a table of
  well-known mirrors or else the `github.com`, `gopkg.in` and `golang.org`
  naming rules;
- turns the version into a tag: the 7-character abbreviated commit of a
  pseudo-version, or the semantic version without `+incompatible`;
- prints `account:project:tag:group/prefix/name`.

The resolved packages are sorted by that string. The packages whose mirror
could not be derived are printed after them, commented out.

This project is a model of that program, modules2tuple.go, with proofs about
the model. It is split into six modules:

| file | module | what it holds |
|---|---|---|
| `wrappers.dfy` | `Wrappers` | `Option` |
| `go_strings.dfy` | `GoStrings` | the parts of Go's `strings` package the program uses (`HasPrefix`, `TrimPrefix`, `Index`/`Contains`, `Split`, `Fields`, `ToLower`) and Go's `<` on strings |
| `versions.dfy` | `Versions` | the two version patterns `tagRx` and `versionRx`, as parsers into structured pseudo-versions and semantic versions with printers that invert them, and the tag a version yields |
| `names.dfy` | `Names` | the two name patterns `gopkgInRx` and `golangOrgRx`, including Go's leftmost-first choice between the alternatives of `gopkgInRx` |
| `packages.dfy` | `Packages` | `Package`, the errors, the name resolver and its table, `ParsePackage` with both spec forms, and the methods `Parsed`, `Group`, `String` (here `Render`) and `Less` |
| `pipeline.dfy` | `Pipeline` | the part of `main` after opening the file |

`main`'s body is specified by one function, `Convert`. That function selects
the spec lines, parses them with the first error winning, partitions the
packages, sorts with a reference insertion sort and builds the output text.
Three methods model `main`'s loops, and `Run` is proved to compute `Convert`:

- `Scan` is the scanning loop.
- `SortPackages` is an in-place sort of an `array<Package>` by `Swap`.
- `Emit` and the two loop methods it calls write the output text.

Go's regexes are replaced by recognisers written for each pattern, with the
same anchoring and the same capture groups. The `-prefix` flag (the global
`packagePrefix`) is a `prefix` parameter. The lines of the input file are a
`seq<string>`, as `bufio.Scanner` delivers them. The output is the text
written to standard output, or the error that makes `main` exit.

## Model

| member | source | states |
|---|---|---|
| GoStrings.TrimPrefix | modules2tuple.go:218 | with the prefix present, prefix + result is the input; otherwise the input is unchanged |
| GoStrings.Index | modules2tuple.go:36 | the first occurrence of the separator, or None exactly when it occurs nowhere |
| GoStrings.Split | modules2tuple.go:39 | the pieces joined by the separator give back the input; no piece contains it; without an occurrence the result is [input]; with one there are at least two pieces, each shorter than the input |
| GoStrings.SplitCons | modules2tuple.go:39 | for a one-character separator, splitting a + sep + b gives a followed by the pieces of b, when a has no separator |
| GoStrings.SplitJoin | modules2tuple.go:77 | for a one-character separator, Split undoes Join of separator-free pieces |
| GoStrings.Fields | modules2tuple.go:60 | every field is non-empty and free of white space |
| GoStrings.FieldsOfSpaces | modules2tuple.go:60 | a string of white space has no fields |
| GoStrings.FieldsCons | modules2tuple.go:60 | leading white space is skipped and a field runs to the next white space |
| GoStrings.FieldsOfTwo | modules2tuple.go:60-66 | a line with exactly two space-separated tokens has exactly those two fields |
| GoStrings.ToLower | modules2tuple.go:140 | same length; each character is lowered, A-Z to a-z and nothing else changed |
| GoStrings.LessMeans | modules2tuple.go:158 | Less holds exactly for a proper prefix, or for a smaller character right after a common prefix |
| GoStrings.LessAt | modules2tuple.go:158 | at the first difference, the characters there decide the order |
| GoStrings.LessIrreflexive | modules2tuple.go:158 | no string is less than itself |
| GoStrings.LessAsymmetric | modules2tuple.go:158 | a < b excludes b < a |
| GoStrings.LessTransitive | modules2tuple.go:158 | a < b and b < c give a < c |
| GoStrings.LessTotal | modules2tuple.go:158 | any two strings are equal or ordered one way, so sort.Sort has a total order |
| GoStrings.LessEqAntisymmetric | modules2tuple.go:158 | a <= b and b <= a give a == b |
| Versions.ParseNumber | modules2tuple.go:26 | `\d+` read off the front: a non-empty digit run that is not followed by a digit, plus the rest |
| Versions.ParseRelease | modules2tuple.go:26 | `v\d+\.\d+\.\d+`: a valid release whose text, followed by the rest, is the input, and the rest does not continue with a digit |
| Versions.ParseReleaseText | modules2tuple.go:26 | parsing the text of a valid release, followed by a non-digit, gives back that release and that rest |
| Versions.ParsePrerelease | modules2tuple.go:26 | the optional `-[0-9A-Za-z]+[0-9A-Za-z.-]+` group: a valid prerelease (or none) whose text is the input |
| Versions.ParseSuffix | modules2tuple.go:26 | splits off `+incompatible` exactly when it ends the text |
| Versions.ParseSemver | modules2tuple.go:26 | the whole of versionRx: a valid semantic version whose text is the input |
| Versions.ParseSemverText | modules2tuple.go:26 | round trip: parsing the text of any valid semantic version gives it back |
| Versions.PrereleaseNotIncompatible | modules2tuple.go:26 | a prerelease group never ends in `+incompatible`, so stripping the suffix is unambiguous |
| Versions.ParseStamp | modules2tuple.go:31 | `(?:\d+\.)?\d{14}-[0-9a-f]{8,}` to the end: an optional build number, a 14-digit timestamp and a hash of at least 8 hex digits whose text is the input |
| Versions.ParseStampText | modules2tuple.go:31 | parsing the text of a valid build, timestamp and hash gives them back |
| Versions.ParsePseudo | modules2tuple.go:31 | the whole of tagRx: a valid pseudo-version whose text is the input |
| Versions.ParsePseudoText | modules2tuple.go:31 | round trip: parsing the text of any valid pseudo-version gives it back |
| Versions.PseudoTag | modules2tuple.go:31 | capture group 1 of tagRx has exactly 7 hex digits |
| Versions.StampIsPrerelease | modules2tuple.go:26-31 | a pseudo-version's text after the release is also a prerelease of versionRx, starting with a digit |
| Versions.PseudoNeedsDashDigit | modules2tuple.go:31 | a version whose release is not followed by '-' and a digit is not a pseudo-version |
| Versions.PseudoNotIncompatible | modules2tuple.go:31 | nothing ending in `+incompatible` matches tagRx, because of its `\z` after the hash |
| Versions.VersionTag | modules2tuple.go:91-100 | a tag found is non-empty and is an abbreviated hash or a semantic version without the suffix |
| Versions.PseudoVersionTag | modules2tuple.go:92-94 | tagRx is tried first: a pseudo-version yields the first 7 characters of its hash, 7 hex digits |
| Versions.SemverVersionTag | modules2tuple.go:95-97 | a valid semantic version whose text is no pseudo-version's text yields its text without `+incompatible` |
| Versions.SemverNoStampTag | modules2tuple.go:91-97 | tagRx cannot take a semantic version with the suffix, with no prerelease, or with a prerelease not led by a digit, so it gets the versionRx tag |
| Versions.IncompatiblePseudoVersionTag | modules2tuple.go:91-97 | a pseudo-version with `+incompatible` fails tagRx and falls through to versionRx, so its tag is the whole pseudo-version |
| Versions.VersionTagNone | modules2tuple.go:98-99 | the version error happens exactly when the version is the text of no valid pseudo-version and no valid semantic version |
| Versions.PseudoVersionExample | modules2tuple.go:28 | `v0.0.0-20181001143604-e0a95dfd547c` yields `e0a95df` |
| Versions.IncompatibleExample | modules2tuple.go:23 | `v1.2.3+incompatible` yields `v1.2.3` |
| Versions.PrereleaseExample | modules2tuple.go:25 | a prerelease with `+incompatible` yields the version without the suffix |
| Versions.DigitPrereleaseExample | modules2tuple.go:91-97 | `v1.2.3-2019.1` starts its prerelease with a digit, fails tagRx, and is tagged by versionRx as itself |
| Names.Component | modules2tuple.go:107 | splits off a maximal run of `[-0-9A-Za-z]`; the rest does not continue it |
| Names.GopkgIn | modules2tuple.go:107-118 | a non-empty result is either (go-pkg, pkg) for a `gopkg.in/<pkg>[.v...]` decomposition of the name, or (user, pkg) for a `gopkg.in/<user>/<pkg>.v...` one |
| Names.GopkgInShort | modules2tuple.go:114-115 | every `gopkg.in/<pkg>[.v...]` name gives (go-pkg, pkg), even one whose rest contains '/', since the first optional group is tried first |
| Names.GopkgInUser | modules2tuple.go:117 | every `gopkg.in/<user>/<pkg>.v...` name gives (user, pkg) |
| Names.GopkgInNone | modules2tuple.go:110-112 | the result is ("", "") exactly when the name has neither form |
| Names.GopkgInShortExample | modules2tuple.go:105 | `gopkg.in/yaml.v2` gives (go-yaml, yaml) |
| Names.GopkgInUserExample | modules2tuple.go:106 | `gopkg.in/go-check/check.v1` gives (go-check, check) |
| Names.GopkgInGreedyExample | modules2tuple.go:107 | `gopkg.in/ab.v1/cd.v2` gives (go-ab, ab): `(?:\.v.+)?` takes the rest of the name, so the second group stays empty |
| Names.GolangOrg | modules2tuple.go:121-129 | a non-empty result is (golang, pkg) for a name that is exactly `golang.org/x/` + one name token |
| Names.GolangOrgOf | modules2tuple.go:128 | every `golang.org/x/<pkg>` gives (golang, pkg) |
| Names.GolangOrgNone | modules2tuple.go:125-126 | the result is ("", "") exactly when the name has that form for no token |
| Packages.ResolveName | modules2tuple.go:70-88 | the only failure is a `github.com` name outside the table, and it reports the name; a non-empty repo comes from the table or one of the three prefixes |
| Packages.WellKnownResolved | modules2tuple.go:71-73 | a name in the table resolves to its table entry |
| Packages.GopkgInResolved | modules2tuple.go:83-84 | a `gopkg.in` name outside the table resolves by the gopkg.in rule, to NoRepo when that rule does not match |
| Packages.GolangOrgResolved | modules2tuple.go:85-86 | a `golang.org` name outside the table resolves by the golang.org rule, to NoRepo when that rule does not match |
| Packages.OtherResolved | modules2tuple.go:75-88 | a name outside the table under none of the three hosts resolves to NoRepo, not to an error |
| Packages.GithubNotWellKnown | modules2tuple.go:167-180 | no `github.com` name is in the table, so the table cannot shadow that rule |
| Packages.GithubResolved | modules2tuple.go:76-82 | a `github.com` name of three or more '/'-separated segments resolves to segments 1 and 2; the others are ignored |
| Packages.GithubTooShort | modules2tuple.go:77-79 | a `github.com` name of fewer than three segments is the GitHub-name error |
| Packages.WellKnownOverride | modules2tuple.go:71-84 | the table wins: `gopkg.in/fsnotify.v1` resolves to (fsnotify, fsnotify), although the gopkg.in rule alone gives (go-fsnotify, fsnotify) |
| Packages.SplitReplaceCons | modules2tuple.go:39 | splitting at " => " peels off a first part that contains none and does not end in " =>" |
| Packages.SplitReplacePair | modules2tuple.go:39 | a + " => " + b splits into exactly [a, b] under those conditions |
| Packages.ParsePackage | modules2tuple.go:33-103 | on success the tag is non-empty and a valid tag, and the name is a non-empty field; each error kind holds only in its own situation: a replace spec that does not split in two, a plain spec without two fields, an unresolvable GitHub name, or a version that neither pattern accepts; conversely every replace spec that does not split into exactly two parts is the arity error, and every plain spec without exactly two fields is the field-count error |
| Packages.PlainForm | modules2tuple.go:60-102 | a spec of two fields without " => ": the name verbatim, the resolver's error or repo, then the version error or the tag, tried in that order |
| Packages.ReplaceForm | modules2tuple.go:36-56 | the old side's error comes first, then the new side's; on success the result is the new side's package under the old side's name |
| Packages.ReplaceTooMany | modules2tuple.go:39-42 | a spec with two " => " separators is the replace-arity error for that spec |
| Packages.Collapse | modules2tuple.go:139 | the result has only word characters and is no longer than the input |
| Packages.CollapseWords | modules2tuple.go:139 | a string of word characters is unchanged |
| Packages.CollapseIdempotent | modules2tuple.go:139 | collapsing twice is collapsing once |
| Packages.CollapseRun | modules2tuple.go:139 | a maximal run of non-word characters becomes a single '_' |
| Packages.CollapseConcat | modules2tuple.go:139 | collapsing distributes over a split after a word character |
| Packages.Group | modules2tuple.go:137-141 | only `[0-9a-z_]`, and no longer than account + "_" + project |
| Packages.GroupOfWords | modules2tuple.go:137-141 | with word-only account and project, the group is lowercase(account + "_" + project) |
| Packages.GroupOfDotted | modules2tuple.go:137-141 | a '.' inside the account becomes '_' before lowering |
| Packages.GroupExample | modules2tuple.go:137-141 | (Foo.Bar, Baz) gives foo_bar_baz |
| Packages.Parsed | modules2tuple.go:131-133 | no contract of its own: both account and project are non-empty; used by Pipeline.Resolved and Pipeline.Unresolved |
| Packages.Render | modules2tuple.go:143-145 | no contract of its own: the String format is this definition; see RenderInjective |
| Packages.RenderInjective | modules2tuple.go:143-145 | when account, project and tag contain no ':', equal Strings mean equal packages |
| Packages.AccountDecides | modules2tuple.go:157-159 | Less orders two packages by their accounts' first differing character, whatever follows |
| Packages.PackageLess | modules2tuple.go:157-159 | no contract of its own: Less on the two Strings; see AccountDecides and the GoStrings order lemmas |
| Pipeline.SpecOf | modules2tuple.go:217-218 | a "# " line gives the text after the marker, and any other line gives nothing |
| Pipeline.SpecLinesAppend | modules2tuple.go:215-218 | the spec lines of a concatenation are those of its parts, in order |
| Pipeline.SpecLinesSkip | modules2tuple.go:217 | a line without the "# " marker can be dropped anywhere without changing the specs |
| Pipeline.ParseAllOk | modules2tuple.go:218-227 | on success the i-th package is the parse of the i-th spec |
| Pipeline.ParseAllError | modules2tuple.go:218-222 | failure holds exactly when some spec fails, and the error is that of the first failing spec |
| Pipeline.ParseAllStops | modules2tuple.go:219-222 | once a prefix of the specs fails, the specs after it do not matter |
| Pipeline.Resolved | modules2tuple.go:223-224 | every package kept has an account and a project |
| Pipeline.Unresolved | modules2tuple.go:225-226 | every package kept lacks an account or a project |
| Pipeline.Partition | modules2tuple.go:223-227 | every package goes to exactly one of the two lists: their multisets add up to the input |
| Pipeline.FilterAppend | modules2tuple.go:223-227 | both lists keep encounter order: filtering a concatenation concatenates the filtered parts |
| Pipeline.KeysPermutation | modules2tuple.go:231 | reordering the packages reorders their Strings the same way |
| Pipeline.SortStringsSorts | modules2tuple.go:231 | the reference sort returns a sorted permutation of the Strings |
| Pipeline.SortedUnique | modules2tuple.go:231 | two sorted permutations of the same Strings are equal, so the output does not depend on the sort algorithm |
| Pipeline.OutputLinesShape | modules2tuple.go:233-243 | the header line, then the sorted entries in order, each but the last ending in " \", then the comments |
| Pipeline.TextAppend | modules2tuple.go:233-243 | the text of a concatenation of lines is the concatenation of their texts |
| Pipeline.CollectError | modules2tuple.go:215-222 | the scan fails exactly when some "# " line fails to parse, and with the first such line's error |
| Pipeline.Collect | modules2tuple.go:214-229 | no contract of its own: the result of the scanning loop; see CollectError and Scan |
| Pipeline.Convert | modules2tuple.go:210-243 | no contract of its own: the whole run; see ConvertError, ConvertAnySort, ConvertSkips and Run |
| Pipeline.ConvertError | modules2tuple.go:215-222 | the run fails exactly when some "# " line fails to parse, and it reports the first such line |
| Pipeline.ConvertAnySort | modules2tuple.go:231-243 | the output is the header, then any sorted permutation of the resolved packages' Strings, then the unresolved packages in input order |
| Pipeline.ConvertSkips | modules2tuple.go:217 | inserting a line without the "# " marker anywhere changes nothing |
| Pipeline.Scan | modules2tuple.go:215-229 | the loop returns the two lists or the first parse error, as Collect describes |
| Pipeline.Swap | modules2tuple.go:153-155 | exchanges two elements, and the array stays a permutation of what it held |
| Pipeline.SortPackages | modules2tuple.go:231 | afterwards the array is a permutation of what it held, in non-decreasing order of String |
| Pipeline.EmitEntries | modules2tuple.go:234-240 | the first output loop writes exactly the text of TupleLines |
| Pipeline.EmitComments | modules2tuple.go:241-243 | the second output loop writes exactly the text of CommentLines |
| Pipeline.Emit | modules2tuple.go:233-243 | the header line and both loops write exactly the text of OutputLines |
| Pipeline.Run | modules2tuple.go:210-243 | the sequence of scanning, sorting the array and emitting computes Convert: the output text, or the first error and no output |

## Left out

- Command-line handling is not modelled (modules2tuple.go:182-202, 246-267): flag parsing, the `-v` flag, the usage text and its template. `-prefix` becomes the `prefix` parameter.
- I/O is not modelled: `os.Open`, `bufio.Scanner`, standard output and standard error, and `os.Exit`. The input is the sequence of lines the scanner yields, with line ends and a trailing '\r' already removed. The output is a string. An error ends the run with no output, which is what `main` does, since it prints nothing before the loop is done.
- Lines longer than bufio.Scanner's 64 KiB token limit are not modelled. There `Scan` stops early, `main` does not check `scanner.Err()`, and the remaining lines are silently ignored. The model reads every line.
- Error messages are not modelled: `ParseError` keeps the kind and the quoted string, not `fmt.Errorf`'s `%q` text.
- Strings are sequences of Unicode code points. Go strings are UTF-8 bytes, and the regexp package reads invalid bytes as U+FFFD, which the model does not. For valid UTF-8, code-point order agrees with Go's byte-wise `<`, so `Less` agrees.
- `GoStrings.Fields` uses the full Unicode White_Space set, as Go's `unicode.IsSpace` does, not only ASCII white space.
- `GoStrings.ToLower` lowers only A-Z. Group applies it after the collapse has removed every character outside `[0-9A-Za-z_]`, so it matches Go's `strings.ToLower` there.
- `Pipeline.SortPackages`: the algorithm of `sort.Sort` (pattern-defeating quicksort, not stable) and the `Len` method are not modelled. The model sorts by insertion with the same `Swap` and the same comparison. `ConvertAnySort` and `SortedUnique` show that any sorted permutation gives the same output.
- `Pipeline.SortPackages` and `Pipeline.Emit` take the String method as a function parameter `str`, and `Run` passes `Stringer(prefix)`, which is `Render` with the prefix.
- `Packages.Render` (String) and `Packages.PackageLess` (Less) have no contract of their own. The String format `account:project:tag:group/prefix/name` is `Render`'s definition. What is proved about them is in `RenderInjective`, `AccountDecides` and the order lemmas of `GoStrings`.
- `Pipeline.Collect` and `Pipeline.Convert` have no contract of their own. They are the specification that `Scan` and `Run` are proved against, and `CollectError`, `ConvertError`, `ConvertAnySort` and `ConvertSkips` state their properties.
- `Packages.ParsePackage` does not state its whole result in its own contract. The exact result of each form is given by `PlainForm` and `ReplaceForm` for every spec that splits into two parts, and by `ReplaceTooMany` for three parts. The two arity errors hold in every case, by its own contract.
- `Packages.ReplaceForm` requires that the old side does not end in " =>". Otherwise " => " first occurs inside `a + " => "`, and the split would not be [a, b].
