# Import-hygiene scripts of a React Native code base, in Dafny

This project models three maintenance scripts of a TypeScript/React Native repository that
polices how feature modules (`src/modules/<name>/…`) import each other.

- `refactor_imports.py` turns deep relative imports (`../../src/db/models/Friend`) into path
  aliases (`@/db/models/Friend`). It resolves the specifier against the importing file, looks
  the result up in an ordered alias table, rewrites only specifiers that climb two levels or
  name `/src/`, and writes a file back only when its text changed.
  Modules: `Paths` (`resolve_path`: dirname, lexical normalisation, relpath), `Aliases`
  (`ALIASES`, `get_alias_for_path`) and `Rewrite` (`replacer`, `process_file`).
- `analyze_report.py` reads an ESLint report, keeps the `no-restricted-imports` messages,
  and sorts each one into cross-module, same-module or other.
  Module: `Report`.
- `audit_script.py` walks the source trees and collects findings: module violations,
  hard-coded colours, `: any`, `console.log(`, zustand imports, `StyleSheet.create`, and
  FlashLists without `estimatedItemSize`.
  Module: `Audit`.

`Text` holds the Python `str` operations the scripts use (`startswith`, `find`, `in`,
`split`, `join`, `replace`). `Wrappers` holds `Option` and `Result`. Paths are `/`-separated.
Strings are `seq<char>`.

Where a script loops and appends, the model is a method with a loop. Each such method is
proved equal to a specification function. That function's properties are proved as lemmas:

- `CollectViolations` and `Bucketize` for `analyze_report.py`;
- `ProcessFile` for `process_file`;
- `CheckContent`, `CheckLine`, `ScanSource`, `ScanFiles`, `ScanWalk` and `AuditCodebase`
  for `audit_codebase`.

`resolve_path`, `get_alias_for_path` and `replacer` are pure and are modelled as functions.

## Model

| member | source | states |
|---|---|---|
| `Text.NotPrefixAt` | refactor_imports.py:34 | one differing character in the common range means `s` does not start with `p` |
| `Text.StartsWithHead` | refactor_imports.py:34 | a string starting with a non-empty `p` starts with `p`'s first character |
| `Text.IndexOf` | audit_script.py:78-79 | `find` returns the leftmost index where `p` occurs, and None only when `p` occurs nowhere |
| `Text.ContainsAt` | refactor_imports.py:108 | `p in s` holds as soon as `p` occurs at some index |
| `Text.ShortNotContains` | refactor_imports.py:108 | a text shorter than `p` does not contain it |
| `Text.MissingCharNotContains` | refactor_imports.py:121 | a text that lacks one of `p`'s characters does not contain `p` |
| `Text.PrefixContains` | refactor_imports.py:108 | a text that starts with `p` contains `p` |
| `Text.ContainsIffFound` | audit_script.py:78-81 | `p in s` exactly when `s.find(p)` succeeds |
| `Text.ReplaceFirstAtPrefix` | refactor_imports.py:50 | `replace(source, alias, 1)` on a path starting with `source` swaps that prefix and keeps the rest |
| `Text.Split` | analyze_report.py:28 | `split` never returns an empty list, and no field contains the separator |
| `Text.SplitCons` | analyze_report.py:28-30 | splitting `p + c + t`, where `p` has no `c`, gives `p` followed by the fields of `t` |
| `Text.SplitNone` | analyze_report.py:34 | a text without the separator splits into itself alone |
| `Text.SplitJoin` | refactor_imports.py:36 | joining parts that contain no separator and splitting again gives the parts back |
| `Text.Field` | audit_script.py:81 | the first field contains no separator, is a prefix, and is followed by the separator when it is shorter than the text |
| `Text.SplitFirstIsField` | audit_script.py:81 | `split(c)[0]` is the text before the first `c` |
| `Text.FieldCons` | analyze_report.py:28-30 | the first field of `p + c + t`, where `p` has no `c`, is `p` |
| `Text.FieldSplitsAt` | analyze_report.py:34 | a text containing the separator is its first field, the separator and a rest |
| `Text.SplitMore` | analyze_report.py:34 | a text with at least two fields is its first field, the separator and a rest holding the remaining fields |
| `Text.RemoveAllAbsent` | analyze_report.py:13 | removing every occurrence of a text that does not occur changes nothing |
| `Paths.CanonicalConcat` | refactor_imports.py:36 | concatenating two normalised paths gives a normalised path |
| `Paths.CanonicalPrefix` | refactor_imports.py:35 | a prefix of a normalised path is normalised |
| `Paths.NormalizeNames` | refactor_imports.py:36 | plain names are appended to the directory unchanged during `abspath` normalisation |
| `Paths.NormalizeParent` | refactor_imports.py:36 | in `abspath`, a name followed by `..` cancels out |
| `Paths.Ups` | refactor_imports.py:36 | `n` parent steps form a list of exactly `n` `..` segments |
| `Paths.NormalizeCanonical` | refactor_imports.py:36 | `abspath` normalisation of separator-free components from a normal directory gives a normal path: no empty, `.` or `..` segment |
| `Paths.LexicalCanonical` | refactor_imports.py:35-36 | every relative specifier, whatever its text, resolves to a normal path under a normal root and file |
| `Paths.NormalizeClimb` | refactor_imports.py:35-36 | `n` parent steps then names, from a directory at least `n` deep, drop the directory's last `n` segments and append the names |
| `Paths.DropFromConcat` | refactor_imports.py:35-36 | dropping `n` trailing segments of `a + b` leaves `a` alone when `b` has at least `n` segments |
| `Paths.CommonPrefixLen` | refactor_imports.py:37 | the two paths agree up to the returned length and differ right after it |
| `Paths.JoinStartsWithFirst` | refactor_imports.py:37 | a `/`-join starts with its first part |
| `Paths.RelPathAgainstRoot` | refactor_imports.py:37 | `relpath` against the root is the part below the root for a path inside it, and starts with `..` for a path outside it |
| `Paths.WithinBelow` | refactor_imports.py:37 | the root followed by any segments lies within the root, and the part below the root is those segments |
| `Paths.ResolvePathCases` | refactor_imports.py:34-39 | `resolve_path` has three cases: a specifier without a leading `.` is returned as is; a relative specifier resolving inside the root gives the root-relative path; one resolving outside gives a path starting with `..` |
| `Paths.ClimbSpecIsRelative` | refactor_imports.py:34 | a specifier whose first segment is `..` starts with `.` |
| `Paths.LexicalClimb` | refactor_imports.py:35-36 | climbing `n` levels, then names, lands on the directory minus its last `n` segments, plus the names |
| `Paths.ResolveClimb` | refactor_imports.py:34-38 | a specifier of `n >= 1` parent steps followed by names resolves to the directory minus its last `n` segments, plus the names, `/`-joined |
| `Paths.ClimbsTwice` | refactor_imports.py:117 | a specifier whose first two segments are `..` starts with `../../` |
| `Paths.TwoUpSegments` | refactor_imports.py:36 | `../../d/e` splits into two parent steps and `d`, `e` |
| `Paths.ResolveTwoUp` | refactor_imports.py:34-38 | from `a/b/c.ts`, `../../d/e` resolves to `d/e` |
| `Aliases.GetAlias` | refactor_imports.py:41-51 | None exactly when no rule applies on a directory boundary; otherwise the first applicable rule's alias followed by the rest of the path |
| `Aliases.FirstMatchDecides` | refactor_imports.py:46-50 | whichever rule applies first decides the alias |
| `Aliases.LaterRulesIgnored` | refactor_imports.py:9-23 | appending rules to a table that already maps a path leaves its alias unchanged ("order matters") |
| `Aliases.TableSigilled` | refactor_imports.py:10-23 | every alias of `ALIASES` begins with `@/` |
| `Aliases.NoPartialSegmentMatch` | refactor_imports.py:47 | `src/modulesX/a` is not below `src/modules` |
| `Aliases.OverlapFirstWins` | refactor_imports.py:46-50 | with overlapping rules the earlier one wins, even when the later one is more specific |
| `Aliases.TableMapsDb` | refactor_imports.py:10-23 | under `ALIASES`, `src/db` and everything below it maps to `@/db` with the same rest |
| `Rewrite.DecideRule` | refactor_imports.py:86-129 | after resolution the cascade rewrites exactly when the resolved path is inside the root and an alias exists, is non-empty, differs from the specifier and the specifier climbs two levels or names `/src/`; the result is that alias |
| `Rewrite.RewriteDecision` | refactor_imports.py:80-129 | `replacer` rewrites exactly a relative specifier that resolves inside the root and whose alias the rule accepts, and it rewrites it to that alias |
| `Rewrite.ShallowKept` | refactor_imports.py:108-122 | a specifier with neither `../../` nor `/src/` is never rewritten |
| `Rewrite.SiblingAndParentKept` | refactor_imports.py:111-122 | `./sibling` and `../x` stay as they are |
| `Rewrite.DeepAliasedDecided` | refactor_imports.py:86-118 | a `../../` specifier resolved inside the root to an aliased path is replaced by that alias |
| `Rewrite.DbFriendDecided` | refactor_imports.py:105-109 | a deep specifier resolved to `src/db/models/Friend` is replaced by `@/db/models/Friend` |
| `Rewrite.ClimbIsRelative` | refactor_imports.py:80 | a `../../` specifier passes the relative check |
| `Rewrite.FriendJoined` | refactor_imports.py:37 | the segments `src`, `db`, `models`, `Friend` print as `src/db/models/Friend` |
| `Rewrite.InvoiceLayout` | refactor_imports.py:35-36 | both Invoice specifiers have the climb-then-names shape, and climbing from `src/modules/billing/ui` keeps `src/db/models/Friend` |
| `Rewrite.InvoiceResolves` | refactor_imports.py:34-38 | from `src/modules/billing/ui/Invoice.tsx`, `../../../db/models/Friend` and `../../../../src/db/models/Friend` both resolve to `src/db/models/Friend` |
| `Rewrite.InvoiceImportRewritten` | refactor_imports.py:80-109 | from `src/modules/billing/ui/Invoice.tsx`, `../../../db/models/Friend` is rewritten to `@/db/models/Friend` |
| `Rewrite.SrcImportRewritten` | refactor_imports.py:80-122 | from the same file, `../../../../src/db/models/Friend` is rewritten to `@/db/models/Friend` |
| `Rewrite.RewriteBuffer` | refactor_imports.py:131 | `IMPORT_REGEX.sub(replacer, …)` keeps every literal chunk and each occurrence's kind, prefix and suffix; it changes a specifier only where the rule accepts it, and then to the alias |
| `Rewrite.RewrittenSigilled` | refactor_imports.py:89-109 | with a table whose aliases all start with `@/`, a rewritten specifier starts with `@/` |
| `Rewrite.NonRelativeKept` | refactor_imports.py:80-81 | a specifier not starting with `.` is never rewritten |
| `Rewrite.RewriteChunkIdempotent` | refactor_imports.py:80-81 | a rewritten occurrence is not rewritten again |
| `Rewrite.RewriteIdempotent` | refactor_imports.py:131 | a second pass over a rewritten buffer changes nothing |
| `Rewrite.RenderAppend` | refactor_imports.py:131 | the text of two buffers one after the other is the two texts concatenated |
| `Rewrite.RenderAround` | refactor_imports.py:131 | a buffer's text is the text before a chunk, that chunk, and the text after it |
| `Rewrite.RenderDiffers` | refactor_imports.py:133 | two buffers that agree up to an occurrence whose specifiers begin differently render to different texts |
| `Rewrite.UnchangedWhenNoneAccepted` | refactor_imports.py:129-133 | when no occurrence is accepted the buffer is unchanged |
| `Rewrite.ChangedAtFirstAccepted` | refactor_imports.py:131-133 | with a sigilled table, rewriting the first accepted occurrence changes the text |
| `Rewrite.ChangedIffRewritten` | refactor_imports.py:131-136 | with a sigilled table, the text changes exactly when some occurrence is accepted |
| `Rewrite.FirstAccepted` | refactor_imports.py:131 | if some occurrence is accepted, there is a first accepted one |
| `Rewrite.ProcessFile` | refactor_imports.py:53-136 | the new content is the rewritten buffer's text; the file is written exactly when that text differs, which with a sigilled table means exactly when some occurrence is accepted |
| `Report.StripCwdPrefix` | analyze_report.py:13 | a path under the working directory loses exactly the `cwd/` prefix |
| `Report.StripCwdAbsent` | analyze_report.py:13 | a path that never mentions `cwd/` is kept |
| `Report.CollectViolations` | analyze_report.py:8-16 | the filtering loop builds exactly the violation list of the report |
| `Report.FileViolationsMembers` | analyze_report.py:10-16 | a file contributes exactly its `no-restricted-imports` messages, with the stripped path, line and text |
| `Report.ViolationsMembers` | analyze_report.py:9-16 | a violation is in the list exactly when some file of the report contributes it |
| `Report.ViolationsAppend` | analyze_report.py:9-16 | violations keep report order: a split report gives the first part's violations, then the second's |
| `Report.ImportPathBetweenQuotes` | analyze_report.py:34 | the import path is the text between the first quote and the next one |
| `Report.ImportPathDefined` | analyze_report.py:34 | extracting the import path fails exactly on a message without a quote |
| `Report.ModuleSegmentIsField` | analyze_report.py:26-40 | under a two-segment prefix, the length check always passes and the module is the first field after the prefix |
| `Report.SourceModuleIsField` | analyze_report.py:26-30 | the source module is the field after `src/modules/` when the path starts with it, and None otherwise |
| `Report.TargetModuleIsField` | analyze_report.py:36-40 | the target module is the field after `@/modules/` when the specifier starts with it, and None otherwise |
| `Report.OtherOutsideModules` | analyze_report.py:44-50 | a file outside `src/modules/` or a specifier outside `@/modules/` is always other |
| `Report.ModuleBuckets` | analyze_report.py:44-50 | inside modules the violation is same exactly when both modules are equal and non-empty, cross exactly when both are non-empty and differ, and other when either is empty |
| `Report.SourceModuleOf` | analyze_report.py:27-30 | the module of `src/modules/<x>/<rest>` is `x` |
| `Report.TargetModuleOf` | analyze_report.py:37-40 | the module of `@/modules/<y>/<rest>` is `y` |
| `Report.BillingFileModule` | analyze_report.py:27-30 | `src/modules/billing/Bar.ts` is in module `billing` |
| `Report.InteractionsFileModule` | analyze_report.py:27-30 | `src/modules/interactions/internal/Bar.ts` is in module `interactions` |
| `Report.InteractionsImportModule` | analyze_report.py:37-40 | `@/modules/interactions/services/foo` points into `interactions` |
| `Report.CrossModuleExample` | analyze_report.py:44-48 | billing importing interactions internals is cross-module |
| `Report.SameModuleExample` | analyze_report.py:44-46 | interactions importing its own internals is same-module |
| `Report.FailureStops` | analyze_report.py:34 | once a message without a quote has stopped the loop, later violations change nothing |
| `Report.Bucketize` | analyze_report.py:20-50 | the bucketing loop gives exactly `BucketsOf` of the violations: the same-module, cross-module and other lists, or the error of the first unquoted message |
| `Report.BucketsAreSelections` | analyze_report.py:24-50 | bucketing succeeds exactly when every message is quoted; then each list is the in-order selection of the violations of its class |
| `Report.SelectedSizes` | analyze_report.py:44-50 | each violation lands in exactly one list: the three sizes add up to the number of violations |
| `Report.Analyze` | analyze_report.py:8-50 | the script's lists are the filtered violations and their buckets |
| `Audit.LeadingSpace` | audit_script.py:95 | the count of leading white-space characters: all of them are white space, and the next character is not |
| `Audit.TrimmedEnd` | audit_script.py:95 | the length without trailing white space: everything after it is white space, and the character before it is not |
| `Audit.StripSlice` | audit_script.py:95 | `strip()` removes exactly the leading and trailing white space: the result is a slice, everything cut is white space, and the result neither starts nor ends with white space |
| `Audit.StripIdempotent` | audit_script.py:95 | stripping twice is stripping once |
| `Audit.LineEnd` | audit_script.py:56 | the first line ends at the first line break or at the end of the text |
| `Audit.SplitLines` | audit_script.py:56 | `splitlines()` gives lines that hold no line break (with `SplitLinesCons`, `SplitLinesCrLf` and `SplitLinesSingle`, which say where the lines are cut) |
| `Audit.SplitLinesCons` | audit_script.py:56 | a line followed by any one break (a `\r` not starting `\r\n` included) and more text splits into that line and the lines of the rest |
| `Audit.SplitLinesCrLf` | audit_script.py:56 | a line followed by `\r\n` and more text splits into that line and the lines of the rest, with no empty line between |
| `Audit.LineEndAt` | audit_script.py:56 | the first line ends exactly where the first break is |
| `Audit.SplitLinesSingle` | audit_script.py:56 | a non-empty text without a break is one line |
| `Audit.PathJoin` | audit_script.py:52 | the joined path starts with the directory and ends with the file name, with at most one `/` between them |
| `Audit.ConcatMapMembers` | audit_script.py:43-48 | an element is in the concatenated results exactly when it is in the result for some input |
| `Audit.FilesScannedMembers` | audit_script.py:48-57 | exactly the readable files with a source extension are scanned, each under its joined path |
| `Audit.DirsScannedMembers` | audit_script.py:44-46 | exactly the files of directories that are not skipped are scanned |
| `Audit.ScannedMembers` | audit_script.py:43-44 | a file is scanned exactly when some root's walk scans it |
| `Audit.CurrentModuleDefined` | audit_script.py:77-81 | a file has a current module exactly when its path contains `src/modules/` |
| `Audit.ModulesMarkerAfter` | audit_script.py:79 | in `x/…`, where `x` has no `/` and does not end in `src`, a later `src/modules/` begins after the `/` |
| `Audit.MarkerNotAt` | audit_script.py:79 | no `src/modules/` starts inside such an `x` |
| `Audit.CurrentModuleOf` | audit_script.py:77-81 | a file `src/modules/<x>/…` has current module `x`, provided `x` does not end in `src` |
| `Audit.SegmentAfterOf` | audit_script.py:79-81 | the first `/`-field of the second `split("src/modules/")` field of `src/modules/<x>/…` is `x` |
| `Audit.FirstFieldBeforeMarker` | audit_script.py:79-81 | cutting the text at the next marker keeps the first field `x` |
| `Audit.LastQuote` | audit_script.py:32 | the index found holds a quote with no quote after it; None only when there is no quote |
| `Audit.LastQuoteIs` | audit_script.py:32 | a quote with none after it is the last quote |
| `Audit.GroupsOfMeans` | audit_script.py:32 | after `from '@/modules/`, the groups found are exactly those the greedy reading of `([^/]+)/(.*)['"]` allows |
| `Audit.GroupsOfMatch` | audit_script.py:32 | the groups found satisfy the regex reading |
| `Audit.MatchGroupsOf` | audit_script.py:32 | groups that satisfy the regex reading are the ones found |
| `Audit.DeepImportAtMeans` | audit_script.py:32 | the match found at a position is exactly the one the pattern allows there |
| `Audit.FirstMatchLeftmost` | audit_script.py:83 | the search reports the leftmost position with a match, and None only when no position has one |
| `Audit.FirstMatchSkip` | audit_script.py:83 | positions without a match can be skipped |
| `Audit.DeepImportLeftmost` | audit_script.py:83 | `deep_import_pattern.search(line)` gives the match at the leftmost start that has one, and None only when no start has one |
| `Audit.NoFromInside` | audit_script.py:32 | no `from ` starts inside text that holds none and is followed by an `f` |
| `Audit.NoHeadBefore` | audit_script.py:83 | `search` finds no match before a `from '@/modules/` whose preceding text holds no `from ` |
| `Audit.DeepImportOf` | audit_script.py:32 | on `…from '@/modules/<x>/<y>'…` with no earlier `from ` and no later quote, the groups are `x` and `y` |
| `Audit.TailGroups` | audit_script.py:32 | after the head, `<x>/<y>'<post>` yields groups `x` and `y` |
| `Audit.HeadAt` | audit_script.py:32 | `from '@/modules/` is recognised where it is written |
| `Audit.ViolationOf` | audit_script.py:83-91 | a line importing `@/modules/<x>/<y>` is a violation exactly when `x` is not the current module and `y` contains `/` |
| `Audit.FileViolationOf` | audit_script.py:77-96 | in `src/modules/<a>/…`, an import of `@/modules/<x>/<y>` is flagged exactly when `a != x` and `y` contains `/` |
| `Audit.SomeZustandLineMeans` | audit_script.py:33 | some segment holds the line form of the zustand pattern exactly when one of them does |
| `Audit.FromZustandSomewhere` | audit_script.py:33 | the recursive search for `from 'zustand'` agrees with "at some index" |
| `Audit.ZustandLineMeans` | audit_script.py:33 | the line form is `import`, then later `from`, a quote, `zustand`, a quote |
| `Audit.HexColorFromMeans` | audit_script.py:35 | the recursive search finds a colour exactly when one starts at or after the index |
| `Audit.HasHexColorMeans` | audit_script.py:35 | a line has a hard-coded colour exactly when a quote, `#`, six hex digits and a quote occur at some index |
| `Audit.SpaceRunEnd` | audit_script.py:36 | the end of the white-space run: everything before it is white space, and the character at it is not |
| `Audit.AnyFromMeans` | audit_script.py:36 | the recursive search finds `: any` exactly when one starts at or after the index |
| `Audit.AnyAtMeans` | audit_script.py:36 | `:\s*any\b` matches at `i` exactly when there is a `:`, some white space, then `any` not followed by a word character |
| `Audit.HitsSound` | audit_script.py:69-119 | every entry of a rule comes from a line that fires it, with the file, the 1-based line number and the stripped line |
| `Audit.HitsComplete` | audit_script.py:69-119 | every line that fires a rule gets its entry |
| `Audit.HitsMembers` | audit_script.py:69-119 | a rule's entries are exactly the firing lines, each with its file, 1-based line number and stripped content |
| `Audit.HitsOrdered` | audit_script.py:69-70 | entries carry the file and line numbers from 1 to the number of lines, strictly increasing: at most one per line, in line order |
| `Audit.LinesScannedLines` | audit_script.py:69-119 | the line loop appends to each line category the entries of its rule |
| `Audit.LinesScannedKeeps` | audit_script.py:69-119 | the line loop leaves every other category unchanged |
| `Audit.CollectLines` | audit_script.py:43-119 | each line category is the files' entries, file after file, in line order |
| `Audit.CollectFiles` | audit_script.py:59-66 | each file category lists the files that fire it, at most once each, in scanning order |
| `Audit.CollectUnused` | audit_script.py:10 | `deep_imports`, `todo_comments`, `potential_n_plus_one` and `database_write` stay empty |
| `Audit.CheckContent` | audit_script.py:58-66 | the whole-content checks append the path to `zustand_usage`, `stylesheet_create`, and to `flashlist_missing_size` when `<FlashList` is present without `estimatedItemSize={` |
| `Audit.CheckLine` | audit_script.py:77-119 | the line checks append one entry per rule the line fires |
| `Audit.ScanSource` | audit_script.py:55-119 | the body of the `try` produces exactly the file's specified findings |
| `Audit.ScanFiles` | audit_script.py:48-57 | the file loop of one directory scans exactly its readable source files, in order |
| `Audit.ScanWalk` | audit_script.py:44-46 | the walk loop skips `node_modules` and `.git` directories and scans the rest, in order |
| `Audit.AuditCodebase` | audit_script.py:5-119 | the findings are those of every scanned file of every root, in walk order |

## Left out

- The regular-expression engine.
  - The `IMPORT_REGEX` scan (refactor_imports.py:28) is given as a buffer already cut into literal chunks and occurrences.
  - `Rewrite.RewriteIdempotent` takes the rewritten buffer to be cut the same way on a second scan. Only specifiers change, and aliases and resolved paths hold no quote, so the occurrences keep their boundaries.
  - The audit patterns are hand-written matchers. Each has a lemma tying it to the pattern's literal reading.
- File system and output.
  - `os.walk` and file reading become data: `WalkDir` lists, with None for a file whose read raises.
  - The file write, `print`, `json.dumps` and the `FileNotFoundError` message are left out.
  - The `main` loop of refactor_imports.py (lines 138-147) is left out. `ProcessFile` returns the new text and whether to write it.
- Working directory and separators.
  - `os.getcwd()` is a parameter: `root` in `Paths`/`Rewrite`, `cwd` in `Report`.
  - `os.sep` is `/`, so `replace(os.sep, '/')` (refactor_imports.py:93) is the identity.
- `Audit.AnyAtMeans`: `\b` and `\w` are limited to ASCII letters, digits and `_`. Python's `\w` is Unicode-aware, so a non-ASCII letter after `any` is read here as a word boundary.
- `Audit.CurrentModuleOf`: the lemma requires that the module name not end in `src`. For a name like `xsrc`, `split("src/modules/")` cuts the second field at the `src/modules/` formed by the name's `src` and the following `/modules/…`. The model's `CurrentModule` follows the code in that case too.
- The compiled but unused patterns (audit_script.py:31, 38, 41) have no behaviour.
- The concrete scenarios give a specifier by its `/`-segments, together with the specifier's relation to them.
- From `a/b/c.ts`, `../../d/e` resolves to `d/e`: `dirname` gives `a/b`, `join` appends the specifier, and `abspath` climbs both `..` steps to the root (`Paths.ResolveTwoUp`).
- A `filePath`, `line` or `message` key missing from the ESLint report makes analyze_report.py (lines 13-15) raise `KeyError`. The `FileResult` and `Message` records always hold these fields, so that failure is not modelled.
