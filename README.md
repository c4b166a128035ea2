# replace-word, modelled in Dafny

`replace-word` is a command-line tool that renames one hyphen-separated
phrase to another throughout a directory tree. It replaces the phrase in
every style a programmer writes it (for `foo-bar`: `FooBar`, `fooBar`,
`FOO_BAR`, `foo_bar`, `FOO-BAR`, `foo-bar`, `FOOBAR`, `foobar`, and in text
also `Foo Bar`, `Foo bar` and `foo bar`). It works in two phases.

1. The text phase finds the text files below the target directory. It
   rewrites their contents with the text dictionary and prints a diff for
   each changed file.
2. The rename phase takes the same files and every directory between them
   and the target directory. It visits them from the leaves up and renames
   each entry whose base name the file-name dictionary changes.

A dry run prints what would change and touches nothing. The first error
stops the phase that met it.

The model is split into these modules:

- `Text`: the `strings` functions the tool relies on.
- `Order`: byte-wise string order and the two sorts.
- `FilePath`: `filepath.Clean`, `Join`, `Split` and `Dir`, modelled on
  element stacks.
- `CaseConvert`: the eleven case converters.
- `Dictionary`: the two dictionaries and their printed form, including the
  ambiguity warning.
- `Replace`: the text phase.
- `Discover`: `findTargetFiles` over an abstract directory tree.
- `Expand`: `expandAncestorDirs`, as written and corrected.
- `Rename`: rename planning and the rename loop over an abstract file tree.
- `Utf8`: capitalize and decapitalize on the UTF-8 bytes of a Go string.
- `Io`: errors and result types.

The loops that work through files, directory entries, dictionary items and
plan entries are `method`s with loop invariants. Each of them is proved
equal to a recursive specification function, and the properties are proved
as lemmas about those functions. The word loops inside `largeCamelCase` and
`largeSpaceSeparated`, and the scan of the ignore list, only compute a
value. They are modelled as functions (`CaseConvert.CapitalizeEach` and
membership in `Discover.Ignored`).

## Model

| member | source | states |
|---|---|---|
| Text.UpperChar | replace-word.go:241-246 | The upper-case mapping turns each lower-case ASCII letter into its upper-case partner (32 code points lower), leaves no lower-case ASCII letter behind and changes nothing else. |
| Text.LowerChar | replace-word.go:248-253 | The lower-case mapping turns each upper-case ASCII letter into its lower-case partner (32 code points higher), leaves no upper-case ASCII letter behind and changes nothing else. |
| Text.CaseRoundTrip | replace-word.go:241-253 | Lowering after raising is the same as lowering, and raising after lowering is the same as raising. |
| Text.Upper | replace-word.go:217-219 | `strings.ToUpper` keeps the length and maps every character on its own. |
| Text.Lower | replace-word.go:221-223 | `strings.ToLower` keeps the length and maps every character on its own. |
| Text.Split | replace-word.go:199 | `strings.Split` yields one more piece than there are separators, and no piece contains the separator. |
| Text.JoinSplit | replace-word.go:199-202 | Joining the pieces of a split with the separator gives back the original string. |
| Text.SplitJoin | replace-word.go:199-202 | Splitting a join of separator-free pieces gives back exactly those pieces. |
| Text.Join | replace-word.go:202 | `strings.Join`. Its contract is carried by `Text.JoinSplit` and `Text.SplitJoin`: joining with a one-character separator inverts `strings.Split`. |
| Text.ReplaceAll | replace-word.go:271 | `strings.ReplaceAll`: leftmost non-overlapping occurrences, replaced text not rescanned, and an empty pattern inserting at the start and after every character. Its properties are `Text.ReplaceAllStep`, `Text.ReplaceAllEmpty`, `Text.ReplaceAllSame` and `Text.ReplaceAllAbsent`. |
| Text.ReplaceAllStep | replace-word.go:271 | The leftmost occurrence is replaced: when the pattern (non-empty) first starts right after `x`, the text before it is kept, that occurrence becomes the replacement, and the rest is replaced on its own. |
| Text.ReplaceAllEmpty | replace-word.go:271 | With the empty pattern the replacement comes first, between every two characters and last: the characters of the text joined with the replacement, with one copy on each side. |
| Text.ReplaceAllSame | replace-word.go:271 | Replacing a pattern by itself leaves any text unchanged, even for the empty pattern, which inserts at every position. |
| Text.ReplaceAllAbsent | replace-word.go:271 | A non-empty pattern that does not occur leaves the text unchanged. |
| Order.LessTotal | replace-word.go:128 | Byte-wise order is total on distinct strings. |
| Order.LessTransitive | replace-word.go:128 | Byte-wise order is transitive. |
| Order.PrefixLess | replace-word.go:318-320 | A proper prefix sorts before the longer string, so a directory sorts before everything inside it. |
| Order.SortAscending | replace-word.go:128 | `sort.Strings` returns an ascending permutation of its input. |
| Order.SortDescending | replace-word.go:318-320 | The descending sort returns a permutation of its input, strictly descending when the input has no repeats. |
| CaseConvert.Capitalize | replace-word.go:241-246 | Only the first character changes, it is not a lower-case letter afterwards, and the empty string stays empty. |
| CaseConvert.Decapitalize | replace-word.go:248-253 | Only the first character changes, it is not an upper-case letter afterwards, and the empty string stays empty. |
| CaseConvert.CapitalizeDecapitalize | replace-word.go:241-253 | Capitalizing is idempotent, and each of the two operations undoes the other up to the first letter. |
| CaseConvert.CapitalizeEach | replace-word.go:199-201 | The word loop capitalizes every word and keeps their number. |
| CaseConvert.LargeCamelCase | replace-word.go:197-203 | `largeCamelCase`: split at hyphens, capitalize each word, join with nothing. `CaseConvert.LargeCamelCaseScan` proves it equal to the independent scan, and `CaseConvert.CamelCaseShape` proves its length and that it has no hyphen. |
| CaseConvert.CapitalizeWordsIsSplitJoin | replace-word.go:197-203 | The one-pass scan used for the camel and space styles equals splitting at hyphens, capitalizing each word and joining with the separator. |
| CaseConvert.LargeCamelCaseScan | replace-word.go:197-203 | `largeCamelCase` is that scan with an empty separator. |
| CaseConvert.CapitalizeWordsLength | replace-word.go:197-203 | The result grows or shrinks by the separator's length minus one for every hyphen. |
| CaseConvert.CamelCaseShape | replace-word.go:197-207 | Both camel styles contain no hyphen and have one character for each non-hyphen character of the phrase. Their contents are given by `CaseConvert.LargeCamelCaseScan`. |
| CaseConvert.SmallCamelCase | replace-word.go:205-207 | `smallCamelCase` is `largeCamelCase` with only the first character changed, and that character lowered, so it is not an upper-case letter. |
| CaseConvert.LargeSnakeCase | replace-word.go:209-211 | Every hyphen becomes `_` and every other character is raised, in place. |
| CaseConvert.SmallSnakeCase | replace-word.go:213-215 | Every hyphen becomes `_` and every other character is lowered, in place. |
| CaseConvert.SnakeCases | replace-word.go:209-215 | The two snake styles are the upper- and lower-case forms of each other. |
| CaseConvert.AllLargeCase | replace-word.go:217-219 | The result has the phrase's length, each character is the upper-case mapping of the phrase's character at the same place, and no lower-case letter is left. |
| CaseConvert.AllSmallCase | replace-word.go:221-223 | The result has the phrase's length, each character is the lower-case mapping of the phrase's character at the same place, and no upper-case letter is left. |
| CaseConvert.NoSign | replace-word.go:225-227 | Removes exactly the `_` and `-` characters. |
| CaseConvert.NoSignKeepsOrder | replace-word.go:225-227 | The result is a subsequence of the input, and it is the input itself when there is no sign. |
| CaseConvert.NoSignUpper | replace-word.go:217-227 | Removing signs commutes with raising case, so the flat upper-case style is also the large snake style without its underscores. |
| CaseConvert.LargeSpaceSeparatedScan | replace-word.go:229-235 | `largeSpaceSeparated` is the capitalizing scan with a space separator, keeps the length and leaves no hyphen. |
| CaseConvert.LargeSpaceSeparated | replace-word.go:229-235 | `largeSpaceSeparated`: split at hyphens, capitalize each word, join with spaces. Its contract is `CaseConvert.LargeSpaceSeparatedScan`. |
| CaseConvert.SmallSpaceSeparated | replace-word.go:237-239 | Every `_` and `-` becomes a space, in place, and everything else is kept. |
| CaseConvert.NoSpaceStyles | replace-word.go:197-227 | A phrase without spaces gives a space-free result in each of the eight file-name styles. |
| Dictionary.DictShapes | replace-word.go:164-195 | The text dictionary has 11 items, and the file-name dictionary is its first 8. |
| Dictionary.FileNameDictHasNoSpaces | replace-word.go:182-195 | For a phrase without spaces, no pattern of the file-name dictionary contains a space. |
| Dictionary.DictSymmetry | replace-word.go:164-180 | Swapping the two phrases swaps every pair, and equal phrases give identity pairs. |
| Dictionary.TextDict | replace-word.go:164-180 | `generateDictForText`: the eleven styles in source order, each applied to both phrases. Its properties are `Dictionary.DictShapes`, `Dictionary.DictSymmetry` and `Dictionary.SingleWordIsAmbiguous`. |
| Dictionary.FileNameDict | replace-word.go:182-195 | `generateDictForFileName`: the first eight of those styles. `Dictionary.DictShapes` proves it is the text dictionary's first eight items, and `Dictionary.FileNameDictHasNoSpaces` proves it never contains a space for a phrase without spaces. |
| Dictionary.ItemString | replace-word.go:160-162 | `"before" => "after"`. `Dictionary.RenderInjective` proves that distinct items render distinctly when the before-word has no quote. |
| Dictionary.RenderInjective | replace-word.go:160-162 | Two items without a `"` in their before-word render alike exactly when they are equal. |
| Dictionary.DuplicateAppend | replace-word.go:144-151 | Appending a rendering creates a repeat exactly when it was already present, which is the ambiguity scan's test. |
| Dictionary.DictString | replace-word.go:141-158 | The scanning method returns the lines (items, then WARN and HINT when some rendering repeats) joined by newlines. |
| Dictionary.SameStylesAmbiguous | replace-word.go:141-158 | Two styles that agree on both phrases make the dictionary ambiguous. |
| Dictionary.SingleWordIsAmbiguous | replace-word.go:164-195 | A lower-case phrase without a hyphen always triggers the warning, in both dictionaries. |
| Dictionary.IdentityExampleIsAmbiguous | replace-word.go:164-180 | `a-b` to `a-b` is ambiguous because its large camel and flat upper forms are both `AB`. |
| Replace.ApplyDictAppend | replace-word.go:270-272 | Applying two dictionaries in turn equals applying their concatenation. |
| Replace.ApplyDictIdentity | replace-word.go:270-272 | A dictionary of identity pairs leaves every text unchanged. |
| Replace.ApplyDictAbsent | replace-word.go:270-272 | A dictionary whose non-empty patterns do not occur leaves the text unchanged. |
| Replace.ApplyDict | replace-word.go:270-272 | The fold of `strings.ReplaceAll` over the items, in order, shared by the text and rename phases. Its properties are `Replace.ApplyDictAppend`, `Replace.ApplyDictIdentity` and `Replace.ApplyDictAbsent`, and `Replace.ApplyItems` is its loop. |
| Replace.ReplaceRun | replace-word.go:261-286 | The path-by-path specification of `replaceText`. `Replace.ReplaceText` is proved equal to it, and `Replace.DryRunFails`, `Replace.RealRunWrites`, `Replace.DryRunPreviews` and `Replace.PreviewAgrees` state what it does. |
| Replace.ApplyItems | replace-word.go:269-272 | The replacement loop computes the in-order fold of `strings.ReplaceAll` over the items. |
| Replace.ReplaceText | replace-word.go:261-286 | The method's error, files and printed diffs are those of the path-by-path specification. |
| Replace.DryRunKeepsDisk | replace-word.go:277-281 | A dry run never changes a file. |
| Replace.DryRunFails | replace-word.go:262-266 | A dry run fails exactly when some listed file cannot be read. |
| Replace.DiffsAreChanges | replace-word.go:273-283 | Every printed diff is for a listed path, shows that file's replacement and is a real change. |
| Replace.IdentityChangesNothing | replace-word.go:268-283 | An identity dictionary writes nothing and prints nothing. |
| Replace.RealRunWrites | replace-word.go:268-281 | A successful real run over distinct paths holds the dictionary's output in exactly the listed files, and every other file is unchanged. |
| Replace.DryRunPreviews | replace-word.go:261-286 | When the real run succeeds, the dry run prints the same diffs and keeps the files. |
| Replace.PreviewAgrees | replace-word.go:261-286 | A dry run on files with the same contents previews exactly the diffs the real run prints. |
| Discover.Find | replace-word.go:89-130 | A successful discovery lists its paths in ascending byte order. |
| Discover.FindTargetFiles | replace-word.go:89-130 | The walking method returns the result of the recursive specification. |
| Discover.VisitEntry | replace-word.go:97-126 | One loop iteration: skip an ignored directory, recurse into another directory, or read a file and keep it if it is text. |
| Discover.Visit | replace-word.go:97-126 | The specification of one iteration. `Discover.VisitEntry` is proved equal to it, and `Discover.FindMembers` and `Discover.FindShape` state what the iterations yield together. |
| Discover.Scan | replace-word.go:96-127 | The loop over a directory's entries, stopping at the first error. Its contracts are `Discover.ScanSucceeds`, `Discover.ScanMembers` and `Discover.ScanShape`. |
| Discover.FindSucceeds | replace-word.go:89-130 | Discovery succeeds exactly when every directory it enters and every file it meets is readable. |
| Discover.FindMembers | replace-word.go:97-126 | The listed paths are exactly the text files reached without entering an ignored directory. |
| Discover.FindShape | replace-word.go:98 | In a tree with distinct names, the listed paths are distinct and lie strictly below the target directory. |
| FilePath.CleanIdempotent | replace-word.go:324 | `filepath.Clean` is idempotent and keeps the element stack. |
| FilePath.Clean | replace-word.go:324 | `filepath.Clean`. `FilePath.CleanIdempotent`, `FilePath.CleanTrailingSlash` and `FilePath.RenderInjective` state its properties. |
| FilePath.JoinPath | replace-word.go:98 | `filepath.Join` of two elements. `FilePath.JoinPlain`, `FilePath.JoinBelow` and `FilePath.JoinSplitsBack` state its properties. |
| FilePath.SplitPath | replace-word.go:323 | `filepath.Split`: the two parts concatenate to the path, the second holds no slash, and the first is empty or ends in a slash. |
| FilePath.DirPath | replace-word.go:324 | `filepath.Dir`: the cleaned part up to the last slash. `FilePath.ParentDirClean` proves its result is clean. |
| FilePath.ParentDir | replace-word.go:323-324 | `filepath.Dir` of the directory part of `filepath.Split`. `FilePath.ParentOfClean` proves it drops the last element of a clean path. |
| FilePath.JoinSplitsBack | replace-word.go:323-335 | Joining a plain name to a clean directory and splitting the result gives back the directory and the name. |
| FilePath.ParentDirClean | replace-word.go:324 | Every computed parent directory is already clean. |
| FilePath.CleanTrailingSlash | replace-word.go:350 | A trailing slash does not change the cleaned path. |
| FilePath.JoinPlain | replace-word.go:98 | Joining a directory with a plain name pushes the name onto the directory's element stack. |
| FilePath.JoinBelow | replace-word.go:98 | A joined path lies strictly one level below its directory. |
| FilePath.ParentOfClean | replace-word.go:323-324 | The parent of a cleaned path pops the last element. |
| Expand.ClimbNeverStops | replace-word.go:345-354 | A parent step that never reaches the stop value recurses forever. |
| Expand.ClimbFollows | replace-word.go:345-354 | A chain of parent steps that reaches the stop value is exactly what the recursion returns. |
| Expand.ExpandAsWritten | replace-word.go:345-354 | `expandAncestorDirs` as written, comparing with the target directory as typed. `Expand.AsWrittenAgrees` and `Expand.AsWrittenDiverges` state when it returns. |
| Expand.ExpandCorrected | replace-word.go:345-354 | `expandAncestorDirs` comparing with the cleaned target directory. `Expand.CorrectedTerminates` proves it returns the chain for every path below the target directory. |
| Expand.ExpandAncestorDirs | replace-word.go:345-354 | The corrected chain, which stops at the cleaned target directory: it starts at the path, has one entry per level below the target directory, and the k-th entry is the path with k trailing elements removed. |
| Expand.ChainLinks | replace-word.go:348-351 | Each entry's parent is the next entry and is not the cleaned target, and the last entry's parent is the cleaned target. |
| Expand.CorrectedTerminates | replace-word.go:345-354 | Comparing with the cleaned target directory always ends, with that chain. |
| Expand.AsWrittenAgrees | replace-word.go:345-354 | The code as written gives the same chain whenever the target directory is already clean. |
| Expand.UncleanNeverParent | replace-word.go:348-350 | A target directory that is not clean never equals a computed parent. |
| Expand.AsWrittenDiverges | replace-word.go:345-354 | With a target directory that is not clean, the code as written never returns. |
| Expand.TrailingSlashExample | replace-word.go:345-354 | `--dir foo/` with the file `foo/a`: the code as written never returns, while the intended chain is `[foo/a]`. |
| Rename.Dedup | replace-word.go:308-317 | The found-map filter keeps each new path once and drops those already seen. |
| Rename.Plan | replace-word.go:308-320 | The rename plan: the chains, deduplicated in first-seen order, sorted descending. `Rename.PlanShape` and `Rename.DescendantsFirst` state what it holds and in which order. |
| Rename.ExpandMembers | replace-word.go:345-354 | A path's chain holds exactly the path and its ancestors strictly below the target directory. |
| Rename.ChainsMembers | replace-word.go:310-316 | All chains together hold exactly the ancestors-or-self of the listed paths. |
| Rename.PlanShape | replace-word.go:308-320 | The plan is strictly descending and holds exactly every listed path and every directory between it and the target. |
| Rename.DescendantsFirst | replace-word.go:307 | In the plan, no entry lies inside an earlier one, so contents are renamed before their directories. |
| Rename.PlanRenames | replace-word.go:308-320 | The planning loops and the sort compute the plan. |
| Rename.KeepUnseen | replace-word.go:311-316 | The inner loop appends the unseen entries of one chain and records them as seen. |
| Rename.MoveFrame | replace-word.go:336 | A rename puts what was at the old path at the new path and leaves every path outside both alone. |
| Rename.MoveContents | replace-word.go:336 | The whole tree after a rename: every path within the old path reappears at the same place within the new path with what it was; the old path is gone unless it lies within the new one; every remaining path either lay outside both and is unchanged, or lies within the new path and came from the old one. |
| Rename.Move | replace-word.go:336 | A successful rename: what lies within the old path moves within the new path, and what was within the new path is replaced. `Rename.MoveFrame` and `Rename.MoveContents` state it. |
| Rename.RenameAttempt | replace-word.go:336 | `os.Rename` on Unix: the first refusal of `Rename.Refusal` as an error, or else `Rename.Move`. |
| Rename.Refusal | replace-word.go:336 | `os.Rename` goes ahead only when the old path exists. |
| Rename.StepTarget | replace-word.go:323-335 | When the new base name is a plain name (not empty, `.` or `..`, and without `/`), the printed line holds the entry's directory and old base name, and the new path lies in that same directory under the new base name. |
| Rename.RenameEntry | replace-word.go:322-340 | One iteration of the rename loop, as specified. |
| Rename.RenameAll | replace-word.go:322-341 | The rename loop's error, tree and printed lines are those of the specification. |
| Rename.EntryOutcome | replace-word.go:326-340 | One entry: skipped when the name does not change, printed in a dry run, and otherwise renamed and printed, or stopped at the error. `Rename.RenameEntry` is proved equal to it. |
| Rename.RenameRun | replace-word.go:322-341 | The rename loop as a specification, stopping at the first error. `Rename.DryRunLog`, `Rename.RealRunLog` and `Rename.SourcesStay` state what it does. |
| Rename.RenameFilesAndDirs | replace-word.go:306-343 | `renameFilesAndDirs` runs the rename loop over the plan. |
| Rename.DryRunLog | replace-word.go:330-340 | A dry run changes nothing, cannot fail and prints every changing entry. |
| Rename.RealRunLog | replace-word.go:334-340 | A real run prints a prefix of the dry-run lines, and all of them when it succeeds. |
| Rename.ChangesFrom | replace-word.go:330-340 | Every printed line is a real change that belongs to a step. |
| Rename.ChangesOfPlan | replace-word.go:323-340 | Every printed line is a plan entry's directory and base name, with a different new name given by the dictionary. |
| Rename.SourcesNeverMissing | replace-word.go:318-339 | If every planned path exists and no two new paths collide, the descending order ensures that no rename fails because its source is gone. |
| Rename.SourcesStay | replace-word.go:322-339 | The same, for any step list in which no later source lies inside an earlier one. |
| Rename.TargetIsSibling | replace-word.go:323-335 | For an entry below the target directory and a plain new base name, the new path stays in the entry's directory under that name, and so also lies below the target directory. |
| Utf8.EncodeRune | replace-word.go:243 | The UTF-8 encoding of one character: one byte exactly for ASCII, otherwise a leading byte and up to three continuation bytes. |
| Utf8.FirstRuneAsWritten | replace-word.go:241-253 | `capitalize` and `decapitalize` on bytes, as written: the mapped first character followed by the bytes from index 1 on. `Utf8.AsWrittenKeepsTail` states how it goes wrong. |
| Utf8.FirstRune | replace-word.go:241-253 | The same with the slice taken after the whole first character. `Utf8.FirstRuneEncodes` and `Utf8.CaseMappingEncodes` state its meaning. |
| Utf8.FirstRuneEncodes | replace-word.go:241-253 | Slicing after the whole first character gives the encoding of the string with only its first character mapped. |
| Utf8.CaseMappingEncodes | replace-word.go:241-253 | The code-point `CaseConvert.Capitalize` and `CaseConvert.Decapitalize` used by the converters encode to exactly the corrected bytes. |
| Utf8.AsWrittenKeepsTail | replace-word.go:243 | As written, the bytes are right exactly when the first character is ASCII. Otherwise the result is longer by that character's continuation bytes, and a continuation byte directly follows the mapped character, which no valid encoding allows. |
| Utf8.CaselessExample | replace-word.go:243 | `日` (E6 97 A5) is capitalized as written to E6 97 A5 97 A5, and to E6 97 A5 when corrected. |

## Left out

- Command-line parsing, reading the two phrases from standard input and
  `main` are not modelled. The model starts from the target directory, the
  two phrases and the dry-run flag.
- Diff computation, colouring and printing are not modelled. A printed
  diff is the `Diff` record (path, old text, new text). A printed rename
  is the `Renamed` record (directory, old base name, new base name).
- `http.DetectContentType` is not modelled. Discovery takes an `isText`
  oracle over the file content instead.
- Files are not read from or written to a real filesystem. The text phase
  works on a `Disk`: a map from path to content, plus a set of read-only
  paths whose write fails. A path missing from the map fails to read.
- `Rename.RenameAttempt`: `os.Rename` is a parameter (`RenameCall`) of the
  rename phase. `RenameAttempt` is a Unix model of it. It applies Go's
  existing-directory check first, then the `rename(2)` errors in one fixed
  order. The kernel's exact order of checks is not pinned down.
- `Discover.Find`: symbolic links are read as files, and there is no
  directory-cycle detection.
- Discover.Find: `os.ReadDir` returns a directory's entries sorted by
  name. The model walks `children` in the order the tree gives them and
  does not require that order to be sorted. So when several entries are
  unreadable, which one's error is reported first is not pinned down. The
  proved properties (`Discover.FindSucceeds`, `Discover.FindMembers`,
  `Discover.FindShape`, and the sorted result of `Discover.Find`) do not
  depend on the order.
- Case mapping covers ASCII letters only. `unicode.ToUpper`,
  `unicode.ToLower`, `strings.ToUpper` and `strings.ToLower` change no
  other character here.
- Strings are sequences of Unicode code points. Go's byte-wise order on
  UTF-8 equals code-point order, so the sorts agree with it.
- CaseConvert.Capitalize: exact for a string whose first character is
  ASCII. On a multi-byte first character, `capitalize` keeps that
  character's trailing bytes after the mapped character. The byte-level
  behaviour is modelled separately (`Utf8.FirstRuneAsWritten`, see
  Findings). The converters use the corrected, code-point form.
- CaseConvert.Decapitalize: the same as `CaseConvert.Capitalize`.
- Rename.Plan: the plan is built from the corrected chain
  (`Expand.ExpandAncestorDirs`, which stops at the cleaned target
  directory). For a target directory that is not clean, such as `foo/`,
  the source never returns from `expandAncestorDirs`
  (`Expand.AsWrittenDiverges`). For a clean target directory the two agree
  (`Expand.AsWrittenAgrees`).
- Rename.PlanRenames: the same as `Rename.Plan`: it models the corrected
  stop. For a target directory that is not clean, the source never
  returns.
- Rename.RenameFilesAndDirs: runs the corrected plan, so it returns where
  the source, given a target directory that is not clean, never does.
- Rename.StepTarget: a new base name that is not plain (one with `/`, or
  one that is empty, `.` or `..`) is accepted by the source without
  checks. The rename then goes elsewhere, and nothing is proved about
  where.
- Expand.ExpandAncestorDirs: this is the corrected chain. For a target
  directory that is not clean (`foo/` with `foo/a`), it returns where the
  source never returns (`Expand.TrailingSlashExample`,
  `Expand.AsWrittenDiverges`). For a clean target directory it equals the
  code as written (`Expand.AsWrittenAgrees`).
- `Expand.ExpandAncestorDirs` requires the path to lie strictly below the
  target directory. Discovery guarantees this (`Discover.FindShape`).
  Other inputs are not modelled by it. For a path in a sibling directory
  the source never returns: the parents climb to `.` or `/`, each its own
  parent, without meeting the target directory. For a path written with a
  doubled slash it returns a chain that the model does not describe.
- `Expand.ExpandAsWritten` carries a `fuel` bound so that the diverging
  recursion can be stated. `None` means "did not return within `fuel`
  levels".
- `regexp` and `sort` internals are not modelled. Their results are
  specified by postconditions: in-place character substitution or
  deletion, and a permutation that is sorted.

## Findings

| source | as written | input that shows it | evidently intended | confidence | as-written member | corrected member |
|---|---|---|---|---|---|---|
| replace-word.go:350 | The recursion stops when the cleaned parent equals `baseDir` exactly, but `baseDir` is the user's `--dir` value, which is never cleaned. | `--dir foo/` with a text file `foo/a`: the parents are `foo`, then `.` forever, and never `foo/`, so the rename phase recurses without end. | Stop at the cleaned target directory (`filepath.Clean(baseDir)`), which gives `[foo/a]`. | high, not executed | Expand.AsWrittenDiverges | Expand.CorrectedTerminates |
| replace-word.go:241-253 | `capitalize` and `decapitalize` rebuild the string as the mapped first character followed by `str[i+1:]`. Since `i` is 0, this slices after the first byte, not after the first character. | The phrase `日`, whose UTF-8 bytes are E6 97 A5: `capitalize` returns E6 97 A5 97 A5, which is not valid UTF-8. A non-ASCII first letter such as `ü` likewise keeps its stray trailing byte. | Slice after the whole first character (`str[utf8.RuneLen(v):]`). The result then encodes the string with only its first character mapped. | high, not executed | Utf8.AsWrittenKeepsTail | Utf8.CaseMappingEncodes |
