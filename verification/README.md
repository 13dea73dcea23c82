# mediasorter text transforms and decision rules, in Dafny

mediasorter copies or moves audio files into a directory tree whose path it
renders from each file's tags through a template. This project models the
parts of it that decide what that path looks like, and the small rules that
configure a run:

- **The bracket content filter** (`bracketreplacer.go`, module `Brackets` in
  `bracket_replacer.dfy`, with the glob matcher in `content_matcher.dfy`).
  A configuration string such as `([{limited, digital}])` selects the active
  bracket pairs. It also gives the comma-separated patterns that decide
  whether a bracketed span is replaced. `BracketReplacer` is a class with the
  two fields the source fills in: `activeBrackets` and `contentMatcher`.
  `ParseConfig` is the configuration scan, as a loop over the characters.
  `Replace` is the scan over a text: a loop with a depth counter and an early
  exit. Both are proved against the functions `ActiveBracketsOf`,
  `PatternSource`, `PatternsOf`, `MatcherOf` and `ReplaceSpec`, and the
  lemmas are stated about those functions. `IsActiveOpenBracket` is the
  lookup `r in activeBrackets`.
- **The path sanitizer** (`cleanup.go`, module `Cleanup` in `cleanup.dfy`).
  `CleanPathSegment` is the source's fixed pipeline, one function per stage:
  1. forbidden characters become `_`;
  2. brackets become ` - `;
  3. backticks are dropped, `&` becomes `and` and `#` becomes `No`;
  4. runs of `_`, tab, CR and LF collapse to one space, and then runs of
     white space do;
  5. leading `[. ]` and trailing `[-. ]` are trimmed;
  6. the text is cut to 255.

  Each of the source's fixed regular expressions is a character-class
  predicate here. `CleanPath` is the source's loop over the `/`-pieces. It
  keeps the quirk of the original: the slice of kept segments starts out
  holding one empty string per piece, and the final `Trim` of `/` removes
  the slashes those empty strings add. The loop itself is
  `AppendCleanSegments`. `JoinCleanSegments` calls it, then joins the result
  with `/` and trims the `/` at both ends. Both take the segment cleaner as
  a parameter: any cleaner whose output never holds `/`. `CleanPath` passes
  them `CleanPathSegment`.
- **Go's `strings` package**, as far as the above uses it (`strings.dfy`):
  Split, Join, TrimLeft/TrimRight, Trim and TrimSpace with `unicode.IsSpace`.
- **The run configuration** (`main.go`, module `Sorter` in `sorter.dfy`):
  - `buildConfig` validation, returning a `Result`;
  - the verbosity clamp of `createOutputWriter`, with `OutputWriter` as a
    class whose `verbosity` field is set after construction;
  - `determineFileProcessor`, with the processors as the tags
    `Copy | Move | DryRun`;
  - the two override checkers as classes. `MemoryOverrideChecker` keeps its
    `seenFiles` map of the source as a set.

  The `OverrideChecker` interface is a datatype holding one of the two
  checkers, with a dispatching `DestinationFileExists`.

Strings are sequences of characters. One character stands for one byte in
the 255 cap of a segment, and for one rune in the scans of `Replace` and
`ParseConfig`.

Some behaviours of the code are easy to miss, and the model keeps them:

- Forbidden characters become `_` (cleanup.go:23). Stage 4 then turns each
  run of `_` into one space.
- The combined content expression `(?i)(p1|p2|…)` is searched for, not
  matched as a whole (bracketreplacer.go:76-78). An interior is accepted as
  soon as some pattern matches some substring of it.
- A `*` in a pattern becomes Go's `.*`, and `.` does not match a line feed
  without the `s` flag. So a `*` between two literals never spans a line
  feed; the `AnyRun` token of the glob matcher has the same limit.
- The 255 cut comes after the trim (cleanup.go:40-45). A cleaned segment can
  therefore end with a space, `.` or `-` when the cut falls right after one
  (`CutCanExposeTrailingSpace`). Cleaning a segment twice gives the same
  result only when the first cleaning needed no cut
  (`CleanPathSegmentIdempotent`). The same holds for a whole path
  (`CleanPathIdempotent`). A path such as 254 letters followed by " b" is
  changed by a second cleaning (`CleanPathCanChangeOnSecondCleaning`,
  `LongNameChangesOnSecondCleaning`).

## Model

| member | source | states |
|---|---|---|
| `ContentMatcher.MatchesPrefixIff` | bracketreplacer.go:76-78 | The executable left-to-right glob search succeeds at the start of a text exactly when some prefix of the text matches the glob as a whole. |
| `ContentMatcher.MatchesSomewhereIff` | bracketreplacer.go:76-78 | The unanchored search of the combined expression succeeds exactly when some substring `s[i..j]` of the interior matches the glob as a whole (both directions). |
| `ContentMatcher.MatchesInsideLongerText` | bracketreplacer.go:150 | Whatever a pattern matches, it also matches when surrounded by any other text: the matcher is not anchored. |
| `ContentMatcher.LiteralPatternMatchesItself` | bracketreplacer.go:87-99 | A pattern without `*` matches exactly the texts of its length that agree with it character by character up to ASCII case, so regex metacharacters such as `.`, `+`, `/`, `#` are literals. |
| `ContentMatcher.StarMatchesEverything` | bracketreplacer.go:59-62 | The default pattern `*` accepts every interior. |
| `Brackets.IsKnownOpenBracket` | bracketreplacer.go:104-107 | The keys of the bracket table are exactly `(`, `[`, `{`, `<`. |
| `Brackets.IsKnownCloseBracket` | bracketreplacer.go:109-116 | Searching the values of the bracket table finds exactly `)`, `]`, `}`, `>`. |
| `Brackets.ActiveBracketsOf` | bracketreplacer.go:36-39 | A bracket is active exactly when its opening character occurs in the configuration, and it is paired with its own closing character. |
| `Brackets.CollectPattern` | bracketreplacer.go:36-45 | The collected pattern text never holds a bracket character and is no longer than the configuration. |
| `Brackets.PatternSourceIgnoresTextOutsideBrackets` | bracketreplacer.go:40-44 | A configuration without an opening bracket contributes no pattern text. |
| `Brackets.PatternSourceSplitsAtClose` | bracketreplacer.go:40-41 | Any closing bracket ends collection whatever bracket opened it, so the pattern text of `a + close + b` is that of `a` followed by that of `b`. |
| `Brackets.PatternSourceCollectsAfterOpen` | bracketreplacer.go:37-44 | Bracket-free text right after an opening bracket is collected verbatim. |
| `Brackets.TrimmedPieces` | bracketreplacer.go:51-56 | The kept pieces are never more than the raw ones, and each is non-empty with no white space at either end. |
| `Brackets.PatternsOf` | bracketreplacer.go:47-62 | There is always at least one pattern and none is empty. |
| `Brackets.TrimmedPiecesKeepsTrimmed` | bracketreplacer.go:51-56 | Pieces that are already trimmed and non-empty are all kept, unchanged and in order. |
| `Brackets.BlankSourceMatchesEverything` | bracketreplacer.go:47-62 | Pattern text made only of white space and commas yields the single pattern `*`, and that matcher accepts every interior. |
| `Brackets.PatternsRoundTrip` | bracketreplacer.go:48-56 | Writing non-empty, comma-free, trimmed patterns out comma-separated and parsing them gives the same list back. |
| `Brackets.PatternsOfJoin` | bracketreplacer.go:47-62 | For any comma-free pieces, parsing their comma-join gives exactly their trimmed, non-blank pieces in order (the value of `TrimmedPieces`), or `*` when every piece is blank. For example, " a , ,b " parses to "a" and "b". |
| `Brackets.BalanceEndIsFirstZero` | bracketreplacer.go:135-145 | The depth counter stops exactly at the first prefix whose depth, counting only the span's own open and close characters, is back to zero, or reports that there is none. |
| `Brackets.BalanceEndOfSpan` | bracketreplacer.go:138-145 | On a text that starts with a balanced span, the depth count ends exactly at the end of that span, whatever follows. |
| `Brackets.ReplaceCopiesPlainText` | bracketreplacer.go:160-163 | Characters that are not active opening brackets are copied unchanged and in order, and the scan goes on after them. |
| `Brackets.ReplaceWithoutActiveBracketIsIdentity` | bracketreplacer.go:128-164 | A text that holds no active opening bracket comes back unchanged. |
| `Brackets.ConfigWithoutOpeningBracketIsInert` | bracketreplacer.go:36-39 | A configuration without an opening bracket activates nothing, and then every text comes back unchanged. |
| `Brackets.ReplaceBalancedSpan` | bracketreplacer.go:147-154 | A balanced span at an active bracket becomes exactly one copy of the replacement when its interior matches and stays as it is otherwise; the scan continues after the span. |
| `Brackets.ReplaceUnbalancedSpan` | bracketreplacer.go:155-158 | An active opening bracket that never balances ends the scan: everything from it to the end of the text is copied unchanged. |
| `Brackets.BracketReplacer.constructor` | bracketreplacer.go:21-28 | A new replacer's active pairs and matcher are exactly those of its configuration, and it records that configuration (`Valid`). |
| `Brackets.BracketReplacer.ParseConfig` | bracketreplacer.go:30-65 | Parsing adds exactly the configuration's active pairs to the map and installs the matcher compiled from its patterns. |
| `Brackets.BracketReplacer.ScanConfig` | bracketreplacer.go:31-45 | The character loop adds exactly the opening brackets of the configuration, with their closing partners, to the map, and collects exactly the pattern text. |
| `Brackets.BracketReplacer.ParsePatterns` | bracketreplacer.go:47-62 | Trimming, splitting at commas, trimming each piece and dropping blanks, with `*` as the fallback, yields the pattern list of the collected text. |
| `Brackets.BracketReplacer.KeepTrimmedPieces` | bracketreplacer.go:50-56 | The loop over the comma-separated pieces keeps exactly the trimmed, non-blank pieces, in order. |
| `Brackets.BracketReplacer.BuildContentMatcher` | bracketreplacer.go:67-79 | The installed matcher holds one compiled glob per pattern, in order. |
| `Brackets.BracketReplacer.ConvertPatternToGlob` | bracketreplacer.go:81-102 | The character loop produces the compiled form of the whole pattern. |
| `Brackets.BracketReplacer.IsActiveOpenBracket` | bracketreplacer.go:118-121 | On a replacer built from a configuration, a character is an active opening bracket exactly when it is one of `(`, `[`, `{`, `<` and occurs in that configuration; that is, exactly when it is a key of the active pairs. |
| `Brackets.BracketReplacer.Replace` | bracketreplacer.go:123-167 | The scan's output is the specification `ReplaceSpec` of the text, whose span, plain-text and unbalanced cases are the lemmas above. |
| `Brackets.BracketReplacer.FindSpanEnd` | bracketreplacer.go:134-145 | The inner loop stops just after the bracket that brings the depth back to zero, or at the end of the text with a positive depth. |
| `Brackets.ReplaceInBrackets` | bracketreplacer.go:170-174 | The template function is `Replace` under the replacer built from the configuration. |
| `Brackets.RemoveBrackets` | bracketreplacer.go:176-179 | `RemoveBrackets(c, t)` equals `ReplaceInBrackets(c, "", t)`. |
| `Strings.Split` | cleanup.go:51 | There is always at least one piece, no piece holds the separator, and joining the pieces gives the text back. |
| `Strings.SplitJoin` | cleanup.go:51 | Splitting the join of separator-free pieces gives the pieces back. |
| `Strings.JoinLength` | cleanup.go:60 | `Join`, Go's strings.Join, gives every piece plus one separator between each two neighbours. Its partners are `SplitJoin`, where Split undoes Join, and `JoinHasNoEmptyPiece`, where non-empty pieces never join into a doubled separator. |
| `Strings.JoinHasNoEmptyPiece` | cleanup.go:60 | Joining non-empty, separator-free pieces never puts two separators side by side. |
| `Strings.Trim` | cleanup.go:63 | The result neither starts nor ends with the trimmed character. |
| `Strings.TrimSpace` | bracketreplacer.go:48 | The result has no white space at either end. |
| `Cleanup.ReplaceForbiddenIsSafe` | cleanup.go:23 | After stage 1 no forbidden character or control character remains. |
| `Cleanup.ReplaceBracketsIsSafe` | cleanup.go:26 | After stage 2 no bracket remains either. |
| `Cleanup.ShellSafeIsSafe` | cleanup.go:29-31 | After stage 3 no backtick, `&` or `#` remains either. |
| `Cleanup.CollapseRunsShape` | cleanup.go:34-35 | A run collapse leaves no two neighbouring characters of its class, and only spaces from that class. |
| `Cleanup.CollapseSpacesIsSafe` | cleanup.go:34-35 | After stage 4 no `_`, tab, CR or LF remains, and no two spaces are adjacent. |
| `Cleanup.TrimEnds` | cleanup.go:40 | After stage 5 the text does not start with `.` or space and does not end with `-`, `.` or space. |
| `Cleanup.CutToMax` | cleanup.go:43-45 | After stage 6 the text is at most 255 long. |
| `Cleanup.CleanPathSegment` | cleanup.go:19-48 | A cleaned segment is at most 255 long. |
| `Cleanup.CleanPathSegmentIsSafe` | cleanup.go:19-48 | A cleaned segment holds none of the forbidden, bracket, shell-awkward or space-like characters and never two adjacent spaces. |
| `Cleanup.CleanPathSegmentEnds` | cleanup.go:37-45 | A cleaned segment never starts with `.` or space; it does not end with `-`, `.` or space unless the cut was needed. |
| `Cleanup.CleanPathSegmentCut` | cleanup.go:42-45 | A text longer than 255 keeps exactly its first 255 characters; a shorter one is kept whole. |
| `Cleanup.DotsCleanToNothing` | cleanup.go:37-40 | Pieces made only of dots and spaces, such as `.` and `..`, clean to the empty string. |
| `Cleanup.BracketBecomesDash` | cleanup.go:26 | Each bracket character becomes ` - `, and the text around it is untouched. |
| `Cleanup.BacktickDisappears` | cleanup.go:29 | A backtick is removed, and the text around it is untouched. |
| `Cleanup.AmpersandBecomesAnd` | cleanup.go:30 | `&` becomes exactly `and`, and the text around it is untouched. |
| `Cleanup.HashBecomesNo` | cleanup.go:31 | `#` becomes exactly `No`, and the text around it is untouched. |
| `Cleanup.TrimmedKeepsClean` | cleanup.go:23-40 | Stages 1 to 5 leave a safe text with clean ends unchanged. |
| `Cleanup.CleanPathSegmentIdempotent` | cleanup.go:19-48 | Cleaning a cleaned segment changes nothing when the first cleaning needed no cut. |
| `Cleanup.CutCanExposeTrailingSpace` | cleanup.go:40-45 | When the cut falls right after a space, the cleaned segment ends with that space and cleaning it again changes it. |
| `Cleanup.KeptSegmentsFrom` | cleanup.go:53-58 | Every kept segment is the cleaned form of one of the pieces. |
| `Cleanup.KeptSegmentsAreClean` | cleanup.go:53-58 | No kept segment holds `/` or starts with `.` or space. |
| `Cleanup.AppendCleanSegments` | cleanup.go:52-58 | After the loop, the slice holds the pre-filled empty strings followed by exactly the non-empty cleaned segments, in order. |
| `Cleanup.JoinCleanSegments` | cleanup.go:52-63 | Joining that slice with `/` and trimming `/` yields exactly the kept segments joined with `/`. |
| `Cleanup.TrimBlanksBeforeJoin` | cleanup.go:52-63 | Trimming `/` removes exactly the slashes that the pre-filled empty strings add to the join. |
| `Cleanup.KeptSegmentsJoinShape` | cleanup.go:53-63 | For any cleaner that never yields `/`, the joined kept segments have no leading or trailing `/` and no "//". They split back into exactly the kept segments. |
| `Cleanup.CleanPath` | cleanup.go:50-65 | cleanPath returns the non-empty cleaned pieces of the path, in order, joined with `/`. |
| `Cleanup.CleanPathShape` | cleanup.go:50-65 | A cleaned path never starts or ends with `/` and never holds `//`. Splitting it at `/` gives back exactly the kept segments, or it is empty when nothing is kept. |
| `Cleanup.CleanPathHasNoDotSegment` | cleanup.go:37-58 | No segment of a cleaned path is empty or starts with a dot, so `.`, `..` and hidden names do not survive. |
| `Cleanup.CleanPathOfOnePiece` | cleanup.go:50-65 | A path without `/` is cleaned as one segment: cleanPath returns its cleaned form. |
| `Cleanup.KeptSegmentsJoinStable` | cleanup.go:50-65 | Take any segment cleaner that maps "" to "", never yields `/`, and leaves its own results on these pieces unchanged. Then splitting the joined kept segments and cleaning them again gives the same path. |
| `Cleanup.CleanPathIdempotent` | cleanup.go:19-65 | When no `/`-piece of a path needs the 255 cut, cleaning the cleaned path changes nothing. |
| `Cleanup.CleanPathCanChangeOnSecondCleaning` | cleanup.go:40-45 | A one-piece path whose trimmed form is longer than 255 characters, with a space as the 255th, is changed by a second cleanPath. |
| `Cleanup.LongNameChangesOnSecondCleaning` | cleanup.go:40-45 | The path of 254 letters `a`, a space and `b` cleans to its first 255 characters, ending with the space. Cleaning that result again changes it. |
| `Sorter.BuildConfig` | main.go:251-272 | It fails exactly when the source directory is empty or dry run and move are both set. A missing source directory is the error reported first. Otherwise every value is copied unchanged into a consistent configuration. |
| `Sorter.ConsistentConfigsAreBuilt` | main.go:251-272 | Every consistent configuration is the successful result of some command line. |
| `Sorter.WriterLevel` | main.go:274-282 | The level is Quiet, Verbose or Debug: Verbose exactly for a count of 1, Debug exactly for a count of 2 or more. |
| `Sorter.CreateOutputWriter` | main.go:274-282 | The new writer's level is the clamp of the configured count. |
| `Sorter.ProcessorFor` | main.go:284-300 | DryRun exactly when dry run is set; otherwise Move exactly when move is set; otherwise Copy. |
| `Sorter.DetermineFileProcessor` | main.go:284-300 | It picks `ProcessorFor(config)`. In a dry run with a count below Verbose it raises the writer to Verbose; otherwise it leaves the writer's level unchanged. |
| `Sorter.NoOverrideChecker.DestinationFileExists` | main.go:48-50 | It always answers "not seen" and changes nothing. |
| `Sorter.MemoryOverrideChecker.constructor` | main.go:305 | A new memory checker has seen nothing. |
| `Sorter.MemoryOverrideChecker.DestinationFileExists` | main.go:56-62 | It answers "seen" exactly when the path was already recorded, and afterwards the record is the old one plus that path. |
| `Sorter.RepliesAreRepeats` | main.go:56-62 | Over a series of queries, a reply is "seen" exactly when the path was known beforehand or was asked about earlier in the series. |
| `Sorter.FreshRunReportsOnlyRepeats` | main.go:56-62 | From an empty memory, the first query for a path answers "not seen" and any later query for it answers "seen". |
| `Sorter.DestinationFileExists` | main.go:41-43 | Through the interface, "seen" is possible only with the memory checker, and only that checker's record changes. |
| `Sorter.DetermineOverrideChecker` | main.go:302-308 | A fresh memory checker with an empty record exactly when override is set, the no-override checker otherwise. |
| `Sorter.CreateSorterParts` | main.go:341-344 | A dry run always shows Verbose messages, and otherwise the writer's level is the clamp. The processor is `ProcessorFor(config)`, and the checker remembers paths exactly when override is set. |

## Left out

- ContentMatcher.SameIgnoringCase: folds ASCII letters only. Go's `(?i)` also folds other Unicode letters (for example `É`/`é`, or the Kelvin sign and `k`). Patterns and names outside ASCII may therefore match in the source where the model says they do not.
- The text of the regular expression that `convertPatternToRegex` builds (`.*`, `regexp.QuoteMeta`, the `unicode.IsLetter`/`IsDigit`/`IsSpace` split) is not modelled. The glob tokens carry the same meaning, because every character other than `*` is a literal either way.
- Cleanup.CleanPathSegment: counts characters, not UTF-8 bytes, so the 255 cap is a character count. A cut in the middle of a multi-byte character is not modelled.
- Cleanup.CleanPathSegmentEnds: the trailing-character guarantee holds only when the cut is not needed. The source cuts after trimming, so a cut can expose a trailing space, `.` or `-` (`CutCanExposeTrailingSpace`).
- Cleanup.CleanPathSegmentIdempotent: idempotence holds only for segments that need no cut, for the same reason.
- Cleanup.CleanPath: cleaning a path twice gives the same result only when no piece needs the 255 cut (`CleanPathIdempotent`). Otherwise a second cleaning can drop a space, `.` or `-` that the cut left at the end of a segment (`CleanPathCanChangeOnSecondCleaning`).
- Invalid UTF-8 in a text, which Go decodes to U+FFFD when it converts to runes, is not modelled: strings are sequences of characters from the start.
- The wording of the `ErrConfig` messages is not modelled; the two errors are tags.
- The warning that `determineFileProcessor` prints when move and dry run are combined, and all printing of `OutputWriter` (`Write`, `Warn`, `Info`, `Debug`). Only the level comparison that decides whether a message is printed is kept, as `OutputWriter.Shows`.
- `createPathTemplate`, template execution and the template step of `createMediaSorter`. They depend on Go's `text/template` engine. Only the functions the template calls, `ReplaceInBrackets` and `RemoveBrackets`, are modelled.
- File operations and directory walking: `CopyFile`, `MoveFile`, `MediaSorter.Sort`, `ProcessFileGroup`, `validatePaths`, `processInput`, `run`, `main` and `FileExistsError`. They are operating-system I/O.
- metadata.go (tag reading through the external tag parser) is not part of this model.
