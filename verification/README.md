# context-lift: a verified model of `consolidateFiles`

`consolidateFiles(sourceDir, targetDir, config)` flattens a source tree into
one target directory. It does four things:

- It deletes and re-creates the target directory.
- It walks the source tree depth first. Directories are pruned when some path
  segment, lower-cased, starts with a lower-cased `excludeDirs` entry.
- It keeps the files that no `excludeFiles` pattern rejects and whose
  extension is in `includeExtensions`, when that list is given.
- It copies every kept file into the target under its basename. When that
  name is taken, it tries `base_1.ext`, `base_2.ext`, and so on.

The model is split into six modules:

- **Names**: the string and path helpers the code borrows from JavaScript and
  Node. This covers ASCII `toLowerCase`, `startsWith`, `split` on the
  separator, `path.join` and `path.relative` for paths below the source root,
  `path.basename`, Node's `path.extname` rule, `path.basename(name, ext)` and
  the decimal rendering of the counter.
- **Settings**: the options object with its destructuring defaults, and the
  command line's default `excludeFiles` list. `includeExtensions` is an
  `Option`, because `null` and `undefined` both skip the extension test.
- **Exclusion**: `isPathExcluded`, for paths relative to the source root.
- **Patterns**: the file test.
  - A pattern without `*` must equal the name.
  - In a pattern with `*`, only the first `*` becomes `.*`. The resulting
    regular expression is compiled and searched for anywhere in the name.
  - The expression language is a fragment of JavaScript's: `.` is any
    character (see "Left out" for line terminators), `x*` repeats `x`, and
    every other character stands for itself.
  - A `*` with nothing to repeat makes `new RegExp` throw. That is the `None`
    verdict.
  - The patterns are tried in order, as `some` tries them.
- **Enumerate**: `getFiles`.
  - The file system is a finite tree of what `readdir` and `stat` answer. An
    entry is a file, a directory, a directory whose `readdir` throws, or an
    entry on which `stat` throws.
  - `Walk` is the specification, as functions. `GetFiles` is the recursive
    method with its `for` loop, proved equal to `Walk`.
  - An exception inside a directory's `try` ends that directory's loop but
    keeps what was already pushed. This covers a failing `stat` and a throwing
    pattern.
  - `Selected(AllFiles(...))` is an independent reference listing: every file
    of the tree, filtered. The walk is proved sound against it, and equal to
    it when nothing throws.
- **Consolidate**: collision naming and the copy loop.
  - `Resolve` is the first free candidate name.
  - `CopyAll` and `Targets` are the loop as functions. They take any naming
    rule, and most properties need only that the rule picks an absent name.
  - The class `TargetDir` holds the target directory's names, each with the
    source copied there. Its methods are `Reset`, the `while` loop
    `ResolveName`, and `Consolidate`, the whole run.

A reader of `excludeFiles = ['*.log']` would expect it to skip only names
ending in `.log`. The code does not meet that expectation. It does not anchor
its regular expression and leaves `.` unescaped, so it also rejects
`error.log.txt` and `catalog`. The model follows the code: see
`Patterns.StarLogRejectsLogTxt` and `Patterns.StarLogRejectsCatalog`.

## Model

| member | source | states |
|---|---|---|
| Names.LowerChar | index.js:26-27 | ASCII upper-case letters move to lower case; every other character is unchanged; the result is never an upper-case letter |
| Names.Lower | index.js:26-27 | lower-casing keeps the length and maps every character by `LowerChar` |
| Names.LowerEmpty | index.js:26-29 | only the empty string lower-cases to the empty string |
| Names.StartsWith | index.js:29 | `startsWith` holds exactly when the prefix is no longer than the text and equals its first characters |
| Names.Split | index.js:22 | splitting yields at least one segment, and no segment holds the separator |
| Names.SplitRoundTrip | index.js:22 | gluing the segments back with the separator gives the path: nothing is lost |
| Names.SplitAppend | index.js:21-22 | the segments of `a/b` are those of `a` followed by those of `b` |
| Names.SplitName | index.js:22 | an entry name without a separator is a single segment |
| Names.Join | index.js:51 | the segments of a child's relative path are its parent's followed by its own name's; a child of the root has the name's segments only |
| Names.Basename | index.js:91 | the basename holds no separator |
| Names.BasenameJoin | index.js:91 | the basename of an entry joined to its directory is the entry's name |
| Names.LastIndexOf | index.js:96 | the result is -1 or an index holding the character, and no later index holds it |
| Names.ExtName | index.js:96 | the extension is a suffix of the name; when non-empty it starts with its only dot and is shorter than the name; it is empty exactly when the last dot is missing or is the first character, or the name is `..` |
| Names.ExtNameExamples | index.js:96 | `app.ts` has `.ts`, `archive.tar.gz` has `.gz`, `..env` has `.env` |
| Names.ExtNameEdgeExamples | index.js:96 | `Makefile` and `.env` have no extension; `a.` has `.` |
| Names.Stem | index.js:97 | stem followed by extension is the name |
| Names.Decimal | index.js:98 | the rendering of the counter is a non-empty string of digits, a single digit exactly for counters below 10, and never with a leading zero |
| Names.DecimalRoundTrip | index.js:98 | reading the rendered counter back gives the counter |
| Names.DecimalInjective | index.js:98 | different counters render differently |
| Exclusion.SegmentMatches | index.js:25-30 | a segment matches an entry exactly when its lower case starts with the entry's lower case: the equality test adds nothing |
| Exclusion.IsPathExcluded | index.js:20-32 | an empty entry excludes every path, the source root included, because every segment starts with the empty string |
| Exclusion.ExcludedIffPrefix | index.js:20-32 | a path is excluded exactly when some lower-cased segment starts with some lower-cased entry; the equality test adds nothing |
| Exclusion.NothingExcludedByEmptyList | index.js:24-31 | with no entries no path is excluded |
| Exclusion.RootExcludedIffEmptyEntry | index.js:21-31 | the source root, the single segment `""`, is excluded exactly when `""` is an entry |
| Exclusion.ExclusionInherited | index.js:21-31 | every path beneath an excluded path is excluded |
| Exclusion.DistPrefixExcluded | index.js:12-31 | with the default entries, a directory whose name starts with `dist` in any case (`distribution`, `DIST`) is excluded at any depth |
| Exclusion.DefaultEntriesBegin | index.js:12 | every default entry is non-empty and, lower-cased, begins with `n`, `.`, `d` or `b` |
| Exclusion.KeptByDefaults | index.js:12-31 | with the default entries, a path none of whose segments begins with `n`, `.`, `d` or `b` in either case is not excluded |
| Patterns.ReplaceFirstStar | index.js:60 | a pattern without `*` is unchanged; otherwise exactly one character is added; the result begins like the pattern, except that a leading `*` becomes `.` |
| Patterns.ReplaceFirstStarAt | index.js:60 | only the first `*` is replaced by `.*`; the text after it, further `*` included, is kept |
| Patterns.StarsStayAdjacent | index.js:60 | after the first `*` becomes `.*`, some `*` has nothing to repeat exactly when the pattern has two `*` side by side |
| Patterns.Compile | index.js:60 | `new RegExp` succeeds exactly when every `*` follows an atom that is not itself a `*` |
| Patterns.Lits | index.js:60 | a text without `*` compiles to one plain atom per character |
| Patterns.CompileSingleStar | index.js:60 | `pre.*post` compiles to the atoms of `pre`, a repeated any-character, and the atoms of `post` |
| Patterns.CompileLits | index.js:60 | a text without `*` always compiles |
| Patterns.MatchesPrefix | index.js:61 | the empty text is matched exactly by atoms that are all repeated |
| Patterns.Search | index.js:61 | `test` succeeds exactly when the atoms match at some position of the name: the search is unanchored |
| Patterns.LitsPrefix | index.js:61 | literal atoms followed by more atoms match a prefix exactly when the text occurs at the start and the rest match after it |
| Patterns.AnyRunPrefix | index.js:61 | `.*` followed by more atoms matches a prefix exactly when the rest match from some later position |
| Patterns.SingleStarPrefixSound | index.js:60-61 | a match of the atoms of `pre*post` at the start of a text has `pre` there and `post` later |
| Patterns.SingleStarPrefixComplete | index.js:60-61 | where `pre` starts a text and `post` occurs after it, the atoms of `pre*post` match there |
| Patterns.StarSearchSound | index.js:60-61 | a successful search for `pre*post` finds `pre` with `post` further on |
| Patterns.StarSearchComplete | index.js:60-61 | where `pre` occurs with `post` further on, the search succeeds |
| Patterns.PatternRejects | index.js:59-63 | building the regular expression throws exactly for a pattern with two `*` side by side: a single `*`, even a leading one, always has an atom to repeat |
| Patterns.LiteralPatternRejects | index.js:63 | a pattern without `*` rejects exactly the name equal to it, case-sensitively |
| Patterns.SingleStarPatternRejects | index.js:59-62 | a pattern with one `*` never throws, and rejects a name exactly when the text before the `*` occurs in it with the text after it further on, unanchored, with `.` matching any character |
| Patterns.StarLogRejectsLog | index.js:59-62 | `*.log` rejects `error.log` |
| Patterns.StarLogRejectsLogTxt | index.js:59-62 | `*.log` also rejects `error.log.txt` |
| Patterns.StarLogRejectsCatalog | index.js:59-62 | `*.log` also rejects `catalog` |
| Patterns.StarLogKeepsNamesWithoutL | index.js:59-62 | `*.log` keeps every name that has no `l` |
| Patterns.StarLogKeepsTxt | index.js:59-62 | `*.log` keeps `error.txt` |
| Patterns.DotEnvExamples | index.js:63 | `.env` rejects `.env` but not `x.env` |
| Patterns.AnyPatternRejects | index.js:58-64 | no pattern rejects exactly when every verdict is "keep"; a rejection or a throw is reported exactly when it comes before any other |
| Patterns.FirstVerdict | index.js:58-64 | scanning verdicts in order, the first that is not "keep" decides, and "keep" results only when all keep |
| Patterns.ExtensionAllowed | index.js:66 | an extension list admits a name only when some listed entry is a suffix of it; a list without `""` admits only names that contain a dot |
| Patterns.ShouldCopy | index.js:58-66 | a file is copied exactly when its extension passes and every pattern keeps it; the test throws only when some pattern has two `*` side by side |
| Patterns.NoExtensionListKeepsUnrejected | index.js:66 | without an extension list, every name that no pattern rejects is copied |
| Patterns.EmptyExtensionListKeepsNothing | index.js:66 | an empty extension list is truthy and no file is copied |
| Patterns.TsOnlyExamples | index.js:66 | with `['.ts']`, `app.ts` is copied and `readme.md` and `Makefile` are not |
| Patterns.DefaultConfigCopiesEveryFile | index.js:11-15 | with the default options (no patterns, no extension list) every file is copied |
| Patterns.CliPatternsNeverThrow | cli.js:29 | the command line's default patterns never throw, whatever the name |
| Patterns.CliSkipsDotEnv | cli.js:29 | the command line's default patterns skip `.env` |
| Patterns.CliSkipsTmp | cli.js:29 | the command line's default patterns skip every `<stem>.tmp` name, whether `*.log` rejects it first or `*.tmp` does |
| Enumerate.GetFiles | index.js:39-76 | the recursive method with its loop returns exactly what `Walk` specifies |
| Enumerate.Walk | index.js:39-45 | only a directory that is not excluded yields files |
| Enumerate.Visit | index.js:50-69 | an entry throws into its parent's loop only when `stat` throws on it or a pattern throws on a file; a subdirectory never does, and a file pushes either nothing or exactly its own path |
| Enumerate.WalkChildren | index.js:47-75 | the loop ends in the catch only when some entry throws |
| Enumerate.ThrowingEntryCaught | index.js:47-75 | an entry that throws always ends the loop in the catch, so the catch is reached exactly when some entry throws |
| Enumerate.LoopStep | index.js:50-73 | one iteration either ends the loop with what the earlier entries pushed or appends what its entry yields |
| Enumerate.StoppedLoop | index.js:47-73 | when entry `i` throws, the directory's result is what the entries before it pushed |
| Enumerate.WalkChildrenAppend | index.js:50-73 | the loop over `a + b` is the loop over `a`, then, unless that threw, the loop over `b` |
| Enumerate.RootWalkedUnlessEmptyEntry | index.js:42-45 | with `""` among the entries the run enumerates nothing; otherwise the root's entries are walked |
| Enumerate.StatFailureTruncates | index.js:50-75 | when `stat` throws on an entry, the directory yields exactly what the entries before it yielded; later siblings are dropped |
| Enumerate.UnreadableSkipped | index.js:47-75 | a subdirectory whose `readdir` throws yields nothing, and the parent goes on with the next entry |
| Enumerate.SubdirectoryFailureContained | index.js:54-56 | a subdirectory's result, partial or not, is pushed, and the parent goes on with the next entry |
| Enumerate.Selected | index.js:66-67 | a path is selected exactly when it is the path of an accepted file of the listing |
| Enumerate.SelectedAppend | index.js:56 | selecting from a concatenation concatenates the selections |
| Enumerate.AllFilesInherit | index.js:42-45 | every file below an excluded directory lies in an excluded directory |
| Enumerate.NothingSelectedBelowExcluded | index.js:42-45 | no file below an excluded directory is ever selected |
| Enumerate.WalkSound | index.js:50-69 | every returned path is a file of the tree whose directory is not excluded and that passes the pattern and extension tests |
| Enumerate.WalkChildrenSound | index.js:50-69 | the same for the loop over one directory's entries |
| Enumerate.WalkComplete | index.js:50-69 | when nothing throws outside the excluded directories, the walk returns exactly the accepted files in depth-first `readdir` order: no accepted file is dropped |
| Enumerate.WalkChildrenComplete | index.js:50-69 | the same for the loop over one directory's entries, which then does not end in the catch; what lies inside an excluded subdirectory may fail without effect |
| Enumerate.VisitComplete | index.js:51-68 | one entry that throws nothing outside excluded directories pushes exactly its accepted files |
| Enumerate.ExcludedSubdirectoryIgnored | index.js:42-56 | an excluded subdirectory pushes nothing and raises nothing, whatever lies inside it, and the loop goes on with the next entries |
| Consolidate.CandidateInjective | index.js:94-99 | different counters give different candidate names |
| Consolidate.Candidate | index.js:94-98 | only counter 0 gives the file name itself; counter `k > 0` lengthens it by `_` and the digits of `k` |
| Consolidate.FirstCandidates | index.js:94-99 | the set holds exactly the first `k` candidates |
| Consolidate.CandidateSetSize | index.js:94-99 | the first `k` candidates are `k` distinct names |
| Consolidate.CandidateNotYetTried | index.js:94-99 | each candidate differs from every candidate tried before it |
| Consolidate.CandidatesBound | index.js:94-99 | if the first `k` candidates are all taken, at least `k` names are present |
| Consolidate.FirstFree | index.js:94-100 | the loop stops at a free candidate, all earlier candidates are taken, and the counter never exceeds the number of names present |
| Consolidate.Resolve | index.js:91-100 | the chosen name is not present, and it is the first candidate, counted from the original file name, that is not present |
| Consolidate.ResolveIs | index.js:94-100 | when candidates `0..k-1` are taken and candidate `k` is free, candidate `k` is chosen |
| Consolidate.Place | index.js:91-100 | the name a source is copied under is not yet in the target |
| Consolidate.PlacePicksFresh | index.js:95 | the naming rule of the copy loop always picks an absent name |
| Consolidate.CopyOne | index.js:95-102 | one copy puts the source under the chosen name, and every other name keeps what it held |
| Consolidate.CopyAll | index.js:90-104 | copying never removes a name, and every name that was not there before holds one of the sources |
| Consolidate.Targets | index.js:90-104 | one target name per copied source |
| Consolidate.CopyAllLast | index.js:90-104 | the last iteration adds the last source under the name the rule picks, and leaves the earlier names alone |
| Consolidate.CopyAllSnoc | index.js:90-104 | copying one more source extends the target and the list of names by that one copy |
| Consolidate.CopyAllKeys | index.js:90-104 | a name is in the target afterwards exactly when it was there before or some source was copied under it |
| Consolidate.TargetFresh | index.js:95 | no source is copied under a name the target held before |
| Consolidate.TargetsDistinct | index.js:90-104 | no two sources are copied under the same name |
| Consolidate.CopyAllPreserves | index.js:102 | what the target held before copying stays unchanged: no copy overwrites |
| Consolidate.TargetHoldsSource | index.js:102 | each source ends up under its own target name, not overwritten by a later copy |
| Consolidate.TargetAt | index.js:91-100 | the `i`-th name is the one the rule picks after the sources before it were copied |
| Consolidate.PlaceIsCandidate | index.js:91-99 | a placed name is a candidate built from the source's basename |
| Consolidate.TargetIsCandidate | index.js:90-100 | every target name is a candidate of its own source's basename, so suffixes never compound |
| Consolidate.CopyAllSize | index.js:90-104 | `N` copied files leave exactly `N` names in a target that started empty |
| Consolidate.DistinctSetSize | index.js:90-104 | `N` pairwise-distinct names form a set of size `N` |
| Consolidate.FreshTargetKeys | index.js:90-104 | a target that started empty holds exactly the names the sources were copied under |
| Consolidate.SharingCount | index.js:90-104 | the number of sources with a given basename is at most the number of sources, and all of them when they all share it |
| Consolidate.HoldsNext | index.js:94-100 | when exactly the first `c` candidates of a name are present, adding candidate `c` leaves exactly the first `c + 1` |
| Consolidate.HoldsOther | index.js:94-100 | adding a name that is none of a file name's candidates leaves its present candidates as they were |
| Consolidate.PlaceNext | index.js:91-100 | when exactly the first `c` candidates of a basename are taken, the next file with that basename is copied under candidate `c` |
| Consolidate.PlaceOther | index.js:91-100 | a file whose basename never clashes with `fileName` is copied under none of the candidates of `fileName` |
| Consolidate.CandidatesTaken | index.js:90-104 | when no other basename clashes with `fileName`, copying leaves exactly the first `c` candidates of `fileName` taken, `c` being the number of sources with that basename |
| Consolidate.BasenameNumbered | index.js:90-104 | when no other basename clashes with `fileName`, the files with that basename get `fileName`, `fileName_1`, ... in enumeration order, however other files interleave |
| Consolidate.OnlySharedNumbered | index.js:90-104 | when every source has the same basename, they are copied as `a.txt`, `a_1.txt`, `a_2.txt`, ... in order |
| Consolidate.CandidateUnderscores | index.js:96-98 | a numbered candidate has exactly one `_` more than the file name |
| Consolidate.NumberedStemsEqual | index.js:96-98 | two numbered candidates of names without `_` are equal only when the names are |
| Consolidate.NoClashUnlessNumbered | index.js:94-98 | for a name without `_`, no candidate of another basename is one of its candidates unless that basename is itself one of its numbered candidates |
| Consolidate.SharedBasenameNumbered | index.js:90-104 | for a basename without `_`, such as `a.txt`, and no source named like `a_k.txt`, the `i`-th file named `a.txt` is copied under `a.txt` or `a_c.txt`, `c` counting the earlier ones, whatever other files are copied in between |
| Consolidate.ATxtCandidates | index.js:98 | the names tried for `a.txt` are `a.txt`, `a_1.txt`, `a_2.txt` |
| Consolidate.CandidateExamples | index.js:96-98 | the counter goes before the last extension only (`archive.tar_1.gz`); `.env` and `Makefile` take it at the end |
| Consolidate.TargetDir.constructor | index.js:79-81 | a target directory that already holds the given names before the run |
| Consolidate.TargetDir.Reset | index.js:79-84 | after the reset the target holds no name, whatever it held before |
| Consolidate.TargetDir.ResolveName | index.js:91-100 | the collision loop returns the first free candidate, which is not present, and stops with `1 <= counter <= present names + 1` |
| Consolidate.TargetDir.Consolidate | index.js:78-104 | the run copies exactly what the walk returns, and the target is then the result of copying those files in order into an empty directory, whatever it held before |
| Consolidate.RunTwice | index.js:78-104 | two runs on the same tree leave the same target, holding one name per enumerated file |

## Left out

- File-system I/O (`readdir`, `stat`, `copy`, `remove`, `ensureDir`, `pathExists`) is replaced by a finite tree of answers and by the target's name map. File contents, metadata and the paths outside the source root are not modelled. The walk returns paths relative to the source root, not joined to it.
- Errors raised while resetting the target or copying a file, which the outer `try` logs and rethrows, are not modelled: every copy succeeds.
- Console logging has no effect on results and is left out.
- The regular-expression `.` matches every character in the model (`Patterns.ClassMatches`). In JavaScript, without the `s` flag, `.` does not match `\n`, `\r`, U+2028 or U+2029, so `*.log` keeps `x\nlog` where the model rejects it. Without the `u` flag JavaScript also matches UTF-16 code units, while a Dafny `char` is a whole Unicode scalar value. Names with line terminators or characters outside the Basic Multilingual Plane are not modelled faithfully.
- Regular expressions: only `.`, `x*` and literal characters are modelled. Other metacharacters (`?`, `+`, `[`, `(`, `\`, `^`, `$`, `{`, `|`) are read as literals, and the only compile error modelled is a `*` with nothing to repeat.
- Patterns.SingleStarPatternRejects: characterises patterns with exactly one `*`. Patterns with several have their meaning given by `Search` alone.
- Unicode `toLowerCase`, platform separators, `path.normalize`, and `path.relative` for paths outside the root or with trailing separators are not modelled. Case folding is ASCII and the separator is `/`.
- The target directory is compared by exact name. A case-insensitive file system, where `A.txt` collides with `a.txt`, is not modelled.
- A target directory inside the source tree is not modelled.
- Symbolic links and cycles are not modelled: the tree is finite.
- async/await is not modelled, because the code awaits every call in sequence.
- cli.js is not part of this model beyond its default `excludeFiles` list (`Settings.CliExcludeFiles`, about which the `Patterns.Cli...` lemmas are stated). Its option parsing, path wrapping and process exit handling are left out.
- Every entry that is not a directory counts as a file, as `isDirectory()` decides.
- Consolidate.SharedBasenameNumbered: stated for basenames without `_`, and only when no source is named like one of their numbered candidates. A file named `a_1.txt` copied before the second `a.txt` makes the code skip to `a_2.txt`, so no simple numbering holds there. `Consolidate.BasenameNumbered` covers any basename, given that no other basename clashes with its candidates.
- Enumerate.WalkChildren: its contract gives only one direction, that the catch needs a throwing entry. The converse is `Enumerate.ThrowingEntryCaught`, kept apart so the walk's proofs stay small.
