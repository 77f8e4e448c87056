# RAID controller metric collectors, modelled in Dafny

Two small collectors turn the text output of RAID command-line tools into
Prometheus exposition lines:

- `sas2ircu.py` reads the `DISPLAY` dump of every LSI SAS2 controller. It
  cuts the dump into its ten rule-delimited segments and checks the four
  section headers. It splits the IR volume and physical device sections
  into blank-line separated records and reads each record's fields with a
  table of line patterns. Each record gives one `sas2ircu_state_ok` gauge:
  1 when the captured state is a healthy one (`Okay (OKY)` for a volume,
  `Optimal (OPT)` or `Ready (RDY)` for a disk), 0 otherwise.
- `mpt-status.py` reads the `mpt-status -n -i` output of every volume line
  by line. A volume line, a physical disk line or a hot spare line is read
  by one whole-line pattern. The captured state and flags are expanded
  into one-hot `mpt_status_state` and `mpt_status_flag` series, next to
  size, disk count and sync gauges. An unreadable line is reported and
  skipped; resync progress lines are skipped silently.

Both collectors then group the metrics by name and print, for each name in
sorted order, a `# HELP`/`# TYPE` header and the sorted metric lines.

The model is split into modules that follow that structure:

| file | module | what it holds |
|---|---|---|
| `wrappers.dfy` | `Wrappers` | `Option` and `Result` |
| `scan.dfy` | `Scan` | the character classes of Python's `re` (`\s`, `\S`, `\d`, `\w`, `.`), `re.IGNORECASE` folding, greedy runs, `str.splitlines()` and `str.split()` |
| `order.dfy` | `Order` | Python's string order, `sorted()` on strings and on a key set |
| `metrics.dfy` | `Metrics` | the `Metric` record, its `__str__` and `type_help_header`, the name-keyed grouping of `main`, the printed exposition |
| `sas2ircu_fields.dfy` | `Sas2ircuFields` | the field patterns of the volume and device records, the healthy-state searches |
| `display_sections.dfy` | `DisplaySections` | `re.split` on the rule lines, `split_display_sections`, `split_by_empty_line` |
| `sas2ircu_blocks.dfy` | `Sas2ircuBlocks` | reading one record, `parse_ir_volume_sect`, `parse_phys_device_sect` |
| `sas2ircu.dfy` | `Sas2ircu` | `parse_display` and the collecting loop of `main` |
| `mpt_lines.dfy` | `MptLines` | the volume, physical disk and hot spare line patterns, the progress-line pattern |
| `mpt_status.dfy` | `MptStatus` | the series expansion, the three line parsers, `parse_line`, the line loop of `main` |

Each regular expression is modelled as a deterministic scanner. Every
greedy run is followed by a character its class cannot contain, so the
scanner never needs to backtrack. The one place where backtracking matters
is `flags:(.+)` followed by `\s+sync_state:` in the disk patterns. There the
model takes the last position at which the ending matches, which is where
a greedy `.+` stops.

The loops of the source are methods proved against specification
functions: `SplitRuns`, `ReadLine`, `ParseBlock`, `ParseSection`,
`StampAll`, `ParseDisplay`, `Aggregate`, both `Collect`s, `ExpandStates`,
`ExpandFlags`, `ScanLines`. The properties of those functions are proved
as lemmas. Among them:

- splitting inverts joining, both for the rule lines and for the blank
  lines;
- printed field lines and printed `mpt-status` lines are read back field
  for field;
- a record is complete exactly when every pattern matched;
- the state series is one-hot;
- the three line formats exclude each other;
- the printed exposition does not depend on the order in which
  controllers or volumes were read.

Some behaviour of the code that the model keeps as it is:

- `split_display_sections` returns four bodies, segments 2, 4, 6 and 8
  (sas2ircu.py:137).
- The healthy-state test is `re.search` (sas2ircu.py:186, 299). The good
  phrase may occur anywhere in the captured state.
- `mpt-status` compares the captured state with each known state by `==`
  (mpt-status.py:157). The comparison is case-sensitive.
- A record field given twice is not an error. The later value overwrites
  the earlier one (sas2ircu.py:181-188).
- At most one state series is set. Exactly one is set only when the
  captured state is one of the known states. An unknown state gives all
  zeros.

## Model

| member | source | states |
|---|---|---|
| `Scan.IsSpace` | sas2ircu.py:52-64 | what `\s` matches in a `str` pattern: the characters of `str.isspace()` |
| `Scan.Fold` | sas2ircu.py:52-64 | the case folding of `re.IGNORECASE`: an ASCII capital becomes its small letter, and the dotted and dotless I, the long s and the Kelvin sign become `i`, `s` and `k` |
| `Scan.LitAt` | sas2ircu.py:52-64 | a literal of a pattern occurs at a position, ignoring case |
| `Scan.RunEnd` | sas2ircu.py:52-64 | a greedy `cls*` stops at the first character outside the class, having taken only class characters |
| `Scan.RunEndUnique` | sas2ircu.py:52-64 | any position with those two properties is the end of the run, so runs are unambiguous |
| `Scan.LitAtSelf` | sas2ircu.py:52 | a keyword spelled exactly is matched by its case-insensitive pattern |
| `Scan.PhraseEnd` | sas2ircu.py:52-64 | `W1\s+W2...` matched case-insensitively ends inside the text, after where it started |
| `Scan.TrimmedEnd` | sas2ircu.py:64 | the end of a text without its trailing whitespace: only whitespace follows it, and it ends on a non-space |
| `Scan.PhraseEndCons` | sas2ircu.py:52-64 | after a word of the phrase and the whitespace run `\s+` takes behind it, the phrase is matched on from the next word |
| `Scan.SplitLines` | sas2ircu.py:347 | `str.splitlines()` returns no line for empty text and some line otherwise, and no line holds a line break |
| `Scan.SplitLinesRejoin` | sas2ircu.py:347 | `str.splitlines()` loses nothing but line ends: there is one line end per line, and the lines each followed by its line end give back the text |
| `Scan.LineEndsProper` | sas2ircu.py:347 | every line but the last ends in `\r\n` or one line-break character; the last one too, or else it is non-empty and ends the text: text ending in a line break has no empty last line |
| `Scan.LoneReturnNotBeforeNewline` | sas2ircu.py:347 | a `\r` is never split from a `\n` right after it: an empty line between a `\r` and a `\n` does not occur, since `\r\n` is one line end |
| `Scan.SplitWhitespace` | mpt-status.py:151 | every token of `str.split()` is non-empty and holds no whitespace |
| `Scan.TokenIsMaximalRun` | mpt-status.py:151 | every token of `str.split()` is a maximal run of non-whitespace in the text |
| `Scan.MaximalRunIsToken` | mpt-status.py:151 | every maximal run of non-whitespace in the text is a token of `str.split()` |
| `Scan.SplitWhitespaceMaximal` | mpt-status.py:151 | the tokens of `str.split()` are exactly the maximal runs of non-whitespace of the text, both ways |
| `Scan.NonSpaceCharsAppend` | mpt-status.py:151 | the non-whitespace characters of a concatenation are those of each part in turn |
| `Scan.NonSpaceCharsOfSpaces` | mpt-status.py:151 | whitespace contributes no characters |
| `Scan.NonSpaceCharsOfWord` | mpt-status.py:151 | a run without whitespace contributes itself |
| `Scan.SkipSpaceRun` | mpt-status.py:151 | leading whitespace contributes nothing |
| `Scan.KeepWordRun` | mpt-status.py:151 | a word run contributes itself, then what follows it |
| `Scan.SplitWhitespaceKeepsText` | mpt-status.py:151 | the tokens of `str.split()`, concatenated, are exactly the non-whitespace characters of the input: splitting loses only whitespace |
| `Order.Le` | sas2ircu.py:514 | Python's `<=` on strings: character by character, a proper prefix first |
| `Order.LeReflexive` | sas2ircu.py:514 | Python's string order is reflexive |
| `Order.LeTotal` | sas2ircu.py:514 | any two strings are ordered one way or the other |
| `Order.LeAntisymmetric` | sas2ircu.py:514 | strings ordered both ways are equal |
| `Order.LeTransitive` | sas2ircu.py:514 | the order is transitive |
| `Order.LeAntisymmetricAll` | sas2ircu.py:514 | antisymmetry for all pairs at once |
| `Order.HasLeast` | sas2ircu.py:24 | every non-empty key set has a least key |
| `Order.Least` | sas2ircu.py:24 | the chosen key is in the set and below every key of it |
| `Order.SortedKeys` | sas2ircu.py:24 | `sorted(labels.keys())` lists every key exactly once, strictly ascending, and nothing else |
| `Order.Insert` | sas2ircu.py:514 | inserting into a sorted list keeps it sorted and adds exactly that element |
| `Order.Sort` | sas2ircu.py:514 | `sorted()` returns an ascending permutation of its input |
| `Order.SortedHeadsAgree` | sas2ircu.py:514 | two ascending arrangements of one multiset start with the same string |
| `Order.SortedUniqueStep` | sas2ircu.py:514 | two ascending arrangements of one multiset agree on the first string and continue with one multiset |
| `Order.SortedUnique` | sas2ircu.py:514 | two ascending arrangements of the same strings are the same list |
| `Order.SortDeterministic` | sas2ircu.py:514 | `sorted()` depends only on which strings it gets, not on their order |
| `Metrics.LabelText` | sas2ircu.py:24-27 | the label part of `str(metric)`: the `k="v"` pairs in sorted key order joined by `, ` inside braces, or nothing without labels |
| `Metrics.Render` | sas2ircu.py:22-28 | `str(metric)`: the name, the label part, a space and the value |
| `Metrics.JoinNonEmpty` | sas2ircu.py:25 | joining pairs whose first is non-empty gives non-empty text |
| `Metrics.LabelTextBraces` | sas2ircu.py:24-27 | the label part has braces exactly when there are labels, and then holds `k="v"` pairs in sorted key order joined by `, ` |
| `Metrics.Until` | sas2ircu.py:25 | a reader of the rendered text stops at the first stop character and only there |
| `Metrics.ReadPair` | sas2ircu.py:25 | reading one `k="v"` pair consumes some text |
| `Metrics.UntilFirst` | sas2ircu.py:25 | reading stops right after a part without stop characters |
| `Metrics.ReadPairOf` | sas2ircu.py:25 | a rendered pair reads back as its key and its value |
| `Metrics.JoinCons` | sas2ircu.py:25 | a join is its first element, the separator, then the join of the rest |
| `Metrics.ParsePairsLast` | sas2ircu.py:25-27 | the last rendered pair, closed by `}`, reads back |
| `Metrics.ParsePairsNext` | sas2ircu.py:25-27 | a rendered pair followed by `, ` and more pairs reads back in front of them |
| `Metrics.ParsePairsOfJoin` | sas2ircu.py:25-27 | the joined pairs of any key list read back as those pairs in order |
| `Metrics.ZipCons` | sas2ircu.py:25 | pairing labels with a key list pairs its first key, then the rest |
| `Metrics.ToMapOfZip` | sas2ircu.py:25 | the pairs read back rebuild the label dictionary on those keys |
| `Metrics.ReadBare` | sas2ircu.py:28 | a metric without labels, `name value`, reads back as its name and value |
| `Metrics.ParseRenderedOf` | sas2ircu.py:28 | a name followed by a brace and readable pairs reads back as the name, the pairs and the value |
| `Metrics.ReadLabelled` | sas2ircu.py:24-28 | a labelled metric line reads back as its name, its whole label dictionary and its value |
| `Metrics.RenderRoundTrip` | sas2ircu.py:22-28 | `str(metric)` loses nothing: the line reads back as the metric's name, every label and the value text |
| `Metrics.NamedPresent` | sas2ircu.py:505 | every name that occurs has at least one metric |
| `Metrics.Grouped` | sas2ircu.py:489-505 | the grouping dictionary has exactly the names that occur as keys, each with a non-empty list |
| `Metrics.NamedAbsent` | sas2ircu.py:505 | a name that does not occur has no metrics |
| `Metrics.GroupedSnoc` | sas2ircu.py:505 | `setdefault(name, []).append(metric)` extends that name's list by the metric and changes nothing else |
| `Metrics.Aggregate` | sas2ircu.py:504-505 | appending each metric under its name, started from the dictionary for what was already seen, ends with the dictionary for everything seen |
| `Metrics.NamedCounts` | sas2ircu.py:505 | a name's list holds exactly the metrics of that name, each as often as it was found |
| `Metrics.GroupedEmpty` | sas2ircu.py:509 | the dictionary is empty exactly when no metric was found |
| `Metrics.RenderAllAppend` | sas2ircu.py:514 | rendering a concatenation renders each part in turn |
| `Metrics.RenderAllPermutation` | sas2ircu.py:514 | rearranged metrics render to rearranged lines |
| `Metrics.ExposeNames` | sas2ircu.py:512-515 | for each name in turn, the `type_help_header` of its first metric, then its metric lines sorted |
| `Metrics.Exposition` | sas2ircu.py:512-515 | what `main` prints: the names of the grouping in sorted order, each as `ExposeNames` prints it |
| `Metrics.ExposeNamesAgree` | sas2ircu.py:512-515 | groups holding the same metrics under each name, with the same headers, print the same lines |
| `Metrics.ExpositionOrderIndependent` | sas2ircu.py:512-515 | the printed output does not depend on the order in which metrics were found, given one template per name |
| `Sas2ircuFields.ValueStart` | sas2ircu.py:52-64 | the value of a field line starts after the separator (`\s+`, or `\s*:` and `\s*`), inside the line |
| `Sas2ircuFields.ModelCaptureTrimmed` | sas2ircu.py:64 | a captured model number is the line's own text where the capture starts: it starts with a word character, only whitespace follows it, and once longer than two characters it has no trailing whitespace |
| `Sas2ircuFields.ModelCaptureAfter` | sas2ircu.py:64 | a model number followed by any run of whitespace, as in the doctest line sas2ircu.py:256, is captured whole wherever it starts, without that trailing whitespace |
| `Sas2ircuFields.PhraseStarts` | sas2ircu.py:52-64 | a phrase of plain words starts with its first word's first letter |
| `Sas2ircuFields.PlainWordsTail` | sas2ircu.py:52-64 | the remaining words of a phrase are plain words too |
| `Sas2ircuFields.GapsTail` | sas2ircu.py:52-64 | the whitespace runs between the remaining words are runs `\s+` allows too |
| `Sas2ircuFields.BlankRun` | sas2ircu.py:52-64 | `\s*` or `\s+` over a run of whitespace followed by a non-space stops exactly at the non-space |
| `Sas2ircuFields.PhraseLaid` | sas2ircu.py:52-64 | text holding a phrase laid out with whitespace runs holds each word, then its run, in turn |
| `Sas2ircuFields.LaidMatched` | sas2ircu.py:52-64 | each word so laid out matches its pattern literal, and `\s+` behind it takes exactly its run |
| `Sas2ircuFields.PhraseLengthIs` | sas2ircu.py:52-64 | the words and runs together are as long as the laid-out phrase |
| `Sas2ircuFields.MatchedPhraseEnd` | sas2ircu.py:52-64 | words matched that way match the whole `W1\s+W2...` and it ends after the last word |
| `Sas2ircuFields.PhraseEndOfPhrase` | sas2ircu.py:52-64 | a phrase laid out with any whitespace runs between its words is matched and ends right after its last word |
| `Sas2ircuFields.FieldLineParts` | sas2ircu.py:52-64 | a printed field line is the indent, the phrase, the run before the separator, the colon and the run after it, the value and the trailer, at the offsets these lengths give |
| `Sas2ircuFields.FieldLineTail` | sas2ircu.py:52-64 | from where the capture starts, a printed field line is the run a `:(.+)` capture takes, the value and the trailer |
| `Sas2ircuFields.ValueStartAt` | sas2ircu.py:52-64 | the separator `\s+`, or `\s*:\s*` (`\s*:` for `(.+)`), over whitespace runs ends where the capture starts |
| `Sas2ircuFields.WordsAt` | sas2ircu.py:52-64 | on a field line the leading `\s*` takes the indent and the phrase then matches to its end |
| `Sas2ircuFields.LaidOutMatchesAt` | sas2ircu.py:183 | a line laid out as indent, phrase, separator and value matches the pattern and captures from the capture start |
| `Sas2ircuFields.FieldLineMatchesAt` | sas2ircu.py:183 | a printed field line in any allowed layout matches its pattern and captures from the capture start |
| `Sas2ircuFields.MatchRule` | sas2ircu.py:183 | `regex.match(line)` for one table pattern: leading whitespace, the phrase, the separator, then the group the value pattern captures, or no match |
| `Sas2ircuFields.MatchRuleAt` | sas2ircu.py:183 | once the phrase and separator are found, the match captures what the value pattern takes there |
| `Sas2ircuFields.ValueShape` | sas2ircu.py:52-64 | a value any capture takes whole is non-empty and starts with a non-space |
| `Sas2ircuFields.CaptureFrom` | sas2ircu.py:52-64 | a value of the capture's shape followed by whitespace is captured: whole for `(\d+)`, `(\w+)` and the model pattern, and with the whitespace around it for `(.+)` |
| `Sas2ircuFields.FieldLineRoundTrip` | sas2ircu.py:51-64 | a field line as sas2ircu prints it, with any indent, any whitespace runs between the words, around the colon and after the value that the pattern allows, matches its pattern and captures its value; a `:(.+)` field captures it with the whitespace around it; the doctest lines sas2ircu.py:145-150, 208-214 and 256 are such lines |
| `Sas2ircuFields.CaptureRestOfLine` | sas2ircu.py:54 | `(.+)` takes the rest of a line without newline |
| `Sas2ircuFields.CaptureOfValue` | sas2ircu.py:52-64 | a value of the capture's shape followed by a whitespace trailer that ends the line is captured |
| `Sas2ircuFields.Search` | sas2ircu.py:58-70 | `pattern.search(s)` for a healthy-state pattern: it matches at some position of `s` |
| `Sas2ircuFields.InactiveOkayHasTag` | sas2ircu.py:58 | wherever `(Inactive,\s*)?Okay\s*\(OKY\)` matches, `Okay\s*\(OKY\)` matches too |
| `Sas2ircuFields.InactivePrefixIrrelevant` | sas2ircu.py:58 | searching with the optional `Inactive,` prefix succeeds exactly when searching for `Okay\s*\(OKY\)` alone does |
| `DisplaySections.SplitOnRules` | sas2ircu.py:126 | `re.split(r"-{2,}\n", text)`: the text cut at every run of two or more dashes followed by a newline |
| `DisplaySections.SplitFromCount` | sas2ircu.py:126 | the scan gives one segment more than it finds rules |
| `DisplaySections.RulesFromAreRules` | sas2ircu.py:126 | every separator found is two or more dashes and a newline |
| `DisplaySections.SplitFromReassembles` | sas2ircu.py:126 | segments and rules from a scan position, interleaved, give back the text from there |
| `DisplaySections.SplitReassembles` | sas2ircu.py:126 | `re.split(r"-{2,}\n", text)` loses nothing: the segments with the rules put back between them are the text, and there is one segment more than rules |
| `DisplaySections.SplitFromSkips` | sas2ircu.py:126 | positions where no rule starts do not change the segments |
| `DisplaySections.RulesFromSkips` | sas2ircu.py:126 | positions where no rule starts do not change the rules |
| `DisplaySections.NoRuleInside` | sas2ircu.py:126 | a rule-free segment starts no rule at any of its positions, whatever follows |
| `DisplaySections.RuleAtStart` | sas2ircu.py:126 | a rule written out is found and consumed whole |
| `DisplaySections.NoRuleAtEnd` | sas2ircu.py:126 | no rule starts at the end of the text |
| `DisplaySections.NoRuleWithin` | sas2ircu.py:126 | no rule starts anywhere inside a rule-free segment |
| `DisplaySections.SplitFromLast` | sas2ircu.py:126 | a rule-free tail is the last segment, with no rule after it |
| `DisplaySections.SplitFromAtRule` | sas2ircu.py:126 | at a rule the current segment ends and a new one starts after the rule |
| `DisplaySections.RulesFromAtRule` | sas2ircu.py:126 | at a rule, that rule is the next one listed |
| `DisplaySections.SplitFromFirst` | sas2ircu.py:126 | a rule-free segment followed by a rule is cut off at that rule |
| `DisplaySections.RulesFromFirst` | sas2ircu.py:126 | that rule is the first one the scan meets |
| `DisplaySections.SplitFromInterleaved` | sas2ircu.py:126 | rule-free segments joined by rules, from any position, split back into those segments and rules |
| `DisplaySections.SplitInterleaved` | sas2ircu.py:126 | splitting undoes joining: rule-free segments joined by rules split back into exactly those segments and rules |
| `DisplaySections.SplitFromRuleFree` | sas2ircu.py:126 | no segment the scan returns contains a rule |
| `DisplaySections.SegmentRuleFree` | sas2ircu.py:126 | a stretch without rule starts, cut out, starts no rule either |
| `DisplaySections.SplitRuleFree` | sas2ircu.py:126 | no segment of `re.split` contains a rule |
| `DisplaySections.HeaderLine` | sas2ircu.py:40-48 | `^\s*W1\s+W2...\s*$` matched at the start of a segment, ignoring case: optional whitespace, the header words, then only whitespace to the end |
| `DisplaySections.Accepts` | sas2ircu.py:133-134 | `regexp.match(part)` for one entry of `DISPLAY_CMD_STRUCT`: `.*` accepts any segment, a header entry only its header |
| `DisplaySections.FirstRejected` | sas2ircu.py:133-135 | the first segment whose check (`.*` or a header pattern of `DISPLAY_CMD_STRUCT`) fails, every earlier one passing; none when all pass |
| `DisplaySections.SplitDisplaySections` | sas2ircu.py:82-137 | succeeds exactly on a dump of ten segments that pass their checks, returning segments 2, 4, 6, 8; a wrong count is `Expected 10 sections but got n`; otherwise the error names the first rejected segment |
| `DisplaySections.AssembledDisplaySplits` | sas2ircu.py:82-137 | ten passing rule-free segments joined by rules come apart into their four bodies |
| `DisplaySections.SplitDisplaySectionsAsWritten` | sas2ircu.py:126-137 | `split_display_sections` as written: a wrong count raises `ParseError`, a rejected segment raises `NameError` for `pattern`, otherwise segments 2, 4, 6 and 8 |
| `DisplaySections.RejectedHeaderIsNotParseError` | sas2ircu.py:126-137 | the code as written agrees with the corrected splitter except that a rejected header raises `NameError` instead of `ParseError` |
| `DisplaySections.SmallSegmentsRuleFree` | sas2ircu.py:126 | the segments of the counterexample dump are rule-free and its separator is a rule |
| `DisplaySections.BadHeaderDumpSegments` | sas2ircu.py:126 | the counterexample dump splits into ten segments, the second `x\n` |
| `DisplaySections.BadHeaderRejected` | sas2ircu.py:133-135 | its first rejected segment is the controller header position |
| `DisplaySections.BadHeaderRaisesNameError` | sas2ircu.py:135 | on that dump the code as written raises `NameError("pattern")`, while the corrected splitter reports segment 1 |
| `DisplaySections.Blocks` | sas2ircu.py:347-359 | `split_by_empty_line` on the lines of the text: the maximal runs of lines of non-zero length, in order |
| `DisplaySections.NextEmpty` | sas2ircu.py:350-354 | the next zero-length line from a position on, every line before it non-empty |
| `DisplaySections.RunsNonEmpty` | sas2ircu.py:347-359 | every run from a position has a line and no zero-length line |
| `DisplaySections.BlocksNonEmpty` | sas2ircu.py:347-359 | every record `split_by_empty_line` returns has a line, and none has a zero-length line |
| `DisplaySections.NextEmptyAt` | sas2ircu.py:350-354 | the next zero-length line is the first one found |
| `DisplaySections.RunsFromEmpty` | sas2ircu.py:351-354 | a zero-length line closes the run before it, which is kept only when it has lines |
| `DisplaySections.RunsFromUnbroken` | sas2ircu.py:355-357 | lines without a zero-length one form one final run, or none when there are no lines |
| `DisplaySections.CloseRun` | sas2ircu.py:351-354 | closing the current run at a zero-length line keeps the runs still to come |
| `DisplaySections.ExtendRun` | sas2ircu.py:350-351 | a non-empty line extends the current run |
| `DisplaySections.SplitByEmptyLine` | sas2ircu.py:316-359 | `split_by_empty_line` returns the runs of non-empty lines of the text's lines |
| `DisplaySections.SplitRuns` | sas2ircu.py:348-359 | the loop with the index where the current run began returns the runs of non-empty lines, in order |
| `DisplaySections.NonEmptyLinesAppend` | sas2ircu.py:347-359 | the non-empty lines of a concatenation are those of each part |
| `DisplaySections.NonEmptyLinesOfFull` | sas2ircu.py:347-359 | lines without a zero-length one are kept whole |
| `DisplaySections.NonEmptyLinesAtEmpty` | sas2ircu.py:351-354 | the kept lines split at a zero-length line |
| `DisplaySections.RunsKeepLines` | sas2ircu.py:347-359 | the runs from a position, concatenated, are the non-empty lines from there |
| `DisplaySections.BlocksKeepLines` | sas2ircu.py:316-359 | the records partition the lines: concatenated, they are the input lines without the zero-length ones |
| `DisplaySections.BlocksOfUnbroken` | sas2ircu.py:316-359 | input without blank lines is one record; no lines give none |
| `DisplaySections.SeparateHead` | sas2ircu.py:351-354 | in records written with a blank line after each, the first blank line ends the first record |
| `DisplaySections.RunsOfNoRecord` | sas2ircu.py:355-357 | no records written give no runs |
| `DisplaySections.RunsOfSeparate` | sas2ircu.py:347-359 | records written with a blank line after each split back from any position |
| `DisplaySections.RunsOfFirstRecord` | sas2ircu.py:347-359 | the first written record is cut off at its blank line, the others follow |
| `DisplaySections.BlocksOfSeparate` | sas2ircu.py:316-359 | splitting undoes separating: records written with a blank line after each split back into the same records |
| `DisplaySections.NoTextNoBlocks` | sas2ircu.py:343-345 | empty text gives no record |
| `Sas2ircuBlocks.Healthy` | sas2ircu.py:58-70 | the healthy test of a captured state: `IR_VOLUME_OK_STATE` found in it for a volume, either `PHYS_DEVICE_OK_STATE` pattern for a disk |
| `Sas2ircuBlocks.HealthyIff` | sas2ircu.py:58-70 | a volume is healthy exactly when `Okay\s*\(OKY\)` occurs somewhere in its state, a disk when `Optimal\s*\(OPT\)` or `Ready\s*\(RDY\)` does, ignoring case |
| `Sas2ircuBlocks.Captures` | sas2ircu.py:182-183 | every pattern of the table is tried on the line |
| `Sas2ircuBlocks.Grid` | sas2ircu.py:181-183 | every pattern is tried on every line of the record |
| `Sas2ircuBlocks.RecordAllStep` | sas2ircu.py:182-188 | the patterns are recorded one after the other, in table order |
| `Sas2ircuBlocks.ReadLine` | sas2ircu.py:182-188 | the inner loop over the patterns: a state capture sets the value to its health, any other capture sets its label |
| `Sas2ircuBlocks.ParseBlock` | sas2ircu.py:179-195 | the body of the record loop gives the record's metric, or the error when a field is missing |
| `Sas2ircuBlocks.LastSpec` | sas2ircu.py:181-188 | the last capture of a column is absent only when nothing was captured, and otherwise nothing is captured after it |
| `Sas2ircuBlocks.Column` | sas2ircu.py:181-183 | one capture per line of the record |
| `Sas2ircuBlocks.LastMatchIff` | sas2ircu.py:181-188 | a field has no value exactly when no line matches its pattern, and otherwise holds the capture of the last matching line |
| `Sas2ircuBlocks.RecordAllOther` | sas2ircu.py:182-188 | labels no pattern of the table sets are left alone |
| `Sas2ircuBlocks.RecordAllNoState` | sas2ircu.py:182-188 | without a state pattern the value is left alone |
| `Sas2ircuBlocks.RecordAllOwn` | sas2ircu.py:182-188 | a label is decided by its own pattern on this line, or kept when the pattern does not match |
| `Sas2ircuBlocks.RecordAllState` | sas2ircu.py:182-188 | the value is the health of this line's state capture, or kept when there is none |
| `Sas2ircuBlocks.RecordAllKeys` | sas2ircu.py:182-188 | a line adds exactly the labels of the non-state patterns it matches |
| `Sas2ircuBlocks.TablesShaped` | sas2ircu.py:51-65 | both pattern tables have distinct attributes, none `device`, the state third; a complete record carries `device` and the other three |
| `Sas2ircuBlocks.LineEffect` | sas2ircu.py:181-188 | what one line does: each label set by its own pattern, `device` untouched, the value from the state pattern, the keys grown by the matched labels |
| `Sas2ircuBlocks.Col` | sas2ircu.py:181-183 | one capture of the pattern per line |
| `Sas2ircuBlocks.ColSnoc` | sas2ircu.py:181-188 | one more line overrides the last capture when its pattern matches |
| `Sas2ircuBlocks.FoundSnocSub` | sas2ircu.py:181-188 | labels found after one more line come from before or from that line |
| `Sas2ircuBlocks.FoundSnocLine` | sas2ircu.py:181-188 | labels captured on the last line are found |
| `Sas2ircuBlocks.FoundSnocKept` | sas2ircu.py:181-188 | labels found before are still found |
| `Sas2ircuBlocks.FoundSnoc` | sas2ircu.py:181-188 | the labels found after one more line are those found before and those that line captured |
| `Sas2ircuBlocks.ReadRowsLabels` | sas2ircu.py:181-188 | after all lines each field label holds the last capture of its pattern |
| `Sas2ircuBlocks.ReadRowsDevice` | sas2ircu.py:179 | `device` is set at the start of the record and never changed |
| `Sas2ircuBlocks.ReadRowsValue` | sas2ircu.py:180-186 | the value is the health of the last state captured, and unset while none was |
| `Sas2ircuBlocks.ReadRowsKeys` | sas2ircu.py:179-188 | the labels are `device` and the found fields and nothing else |
| `Sas2ircuBlocks.FoundWithin` | sas2ircu.py:189 | only the three field labels of the table can be found |
| `Sas2ircuBlocks.FoundMissing` | sas2ircu.py:189 | a field whose pattern never matched is not found |
| `Sas2ircuBlocks.FoundAll` | sas2ircu.py:189 | when every field pattern matched, all three field labels are found |
| `Sas2ircuBlocks.FoundShort` | sas2ircu.py:189 | a field that never matched leaves fewer than three found |
| `Sas2ircuBlocks.FoundFull` | sas2ircu.py:189 | three fields are found exactly when each field pattern matched some line |
| `Sas2ircuBlocks.ReadRowsComplete` | sas2ircu.py:189 | `value is None or len(labels) - 1 != 3` is false exactly when every pattern, state included, matched some line |
| `Sas2ircuBlocks.ReadRowsShape` | sas2ircu.py:179-195 | a complete record has `device`, the three fields with their last captures, and the health of the last state |
| `Sas2ircuBlocks.GridColumn` | sas2ircu.py:181-183 | column `i` of the captures is what pattern `i` gives on each line |
| `Sas2ircuBlocks.BlockResult` | sas2ircu.py:179-195 | one record read line by line through the pattern table: the `sas2ircu_state_ok` metric with its labels and health, or the section's `ParseError` when the state or a label is missing |
| `Sas2ircuBlocks.BlockResultSpec` | sas2ircu.py:176-195 | a record gives a metric exactly when every pattern matched some line; the metric is `sas2ircu_state_ok` with `device` and the three fields (each its last value) only, and value 1 exactly when the last state is healthy; otherwise the section's `ParseError` |
| `Sas2ircuBlocks.RepeatedFieldOverwrites` | sas2ircu.py:181-188 | a field line given twice, in any layouts the pattern allows, keeps the later value |
| `Sas2ircuBlocks.FailureSticks` | sas2ircu.py:189-194 | once a record fails, the section fails with that record's error |
| `Sas2ircuBlocks.SectionStep` | sas2ircu.py:176-195 | one more record is skipped, fails the section, or adds its metric |
| `Sas2ircuBlocks.ParseSection` | sas2ircu.py:173-197 | `parse_ir_volume_sect` / `parse_phys_device_sect` give the metrics of the section's records in order, or the error of the first incomplete one |
| `Sas2ircuBlocks.KeptSnoc` | sas2ircu.py:289-291 | one more record keeps the records kept so far in front |
| `Sas2ircuBlocks.SectionSucceeds` | sas2ircu.py:176-197 | the section succeeds exactly when every kept record is complete |
| `Sas2ircuBlocks.SectionSuccess` | sas2ircu.py:176-197 | a successful section holds one metric per kept record, in order |
| `Sas2ircuBlocks.SectionFailure` | sas2ircu.py:176-197 | a failing section fails with the error of its first incomplete kept record |
| `Sas2ircuBlocks.SectionResult` | sas2ircu.py:288-313 | the records of a section in order, skipped ones passed over: the metrics of all, or the error of the first incomplete one |
| `Sas2ircuBlocks.SectionResultSpec` | sas2ircu.py:288-313 | all or nothing: one metric per kept record in order when all are complete, else the first incomplete record's error |
| `Sas2ircuBlocks.KeptMembers` | sas2ircu.py:72-75 | a record is kept exactly when it does not start with an initiator or enclosure services line |
| `Sas2ircuBlocks.VolumesAllKept` | sas2ircu.py:176-178 | the volume section skips no record |
| `Sas2ircuBlocks.EmptySection` | sas2ircu.py:169-171 | a section without text gives no metric and no error |
| `Sas2ircu.Stamp` | sas2ircu.py:455-456 | every metric with `controller_id` set to the controller's id in its labels |
| `Sas2ircu.StampAll` | sas2ircu.py:455-456 | every metric gets the `controller_id` label |
| `Sas2ircu.ParseDisplay` | sas2ircu.py:451-457 | split the dump, parse the volume section then the disk section, stamp the controller id; the first `ParseError` ends it (the split is the corrected one, see Findings) |
| `Sas2ircu.SectionMetrics` | sas2ircu.py:173-197 | a section's metrics are `sas2ircu_state_ok` gauges with the section's labels and a 0/1 value, one per kept record |
| `Sas2ircu.StampShape` | sas2ircu.py:452-456 | stamping keeps the volume metrics before the disk metrics and adds the controller id to each |
| `Sas2ircu.SectionsMetricsSpec` | sas2ircu.py:452-456 | the dump's metrics are one per volume record, then one per kept disk record, each with the controller id |
| `Sas2ircu.SectionsMetrics` | sas2ircu.py:452-456 | the volume section's metrics then the disk section's, stamped, or the first section's error |
| `Sas2ircu.DisplayMetrics` | sas2ircu.py:451-457 | `parse_display`: split the dump, then the metrics of its two sections, or the first `ParseError` |
| `Sas2ircu.DisplayMetricsSpec` | sas2ircu.py:362-457 | a parsed dump was well formed; its metrics are volume or disk metrics with the controller id, and the volumes come first |
| `Sas2ircu.MalformedDisplayFails` | sas2ircu.py:451 | a malformed dump fails with the corrected section split's error, whatever the controller |
| `Sas2ircu.Outcomes` | sas2ircu.py:490-504 | one parse outcome per controller |
| `Sas2ircu.Gather` | sas2ircu.py:503-507 | the metrics of the controllers' outcomes in order, or the first outcome that failed, with its controller id |
| `Sas2ircu.Gathered` | sas2ircu.py:490-507 | the same for the dumps themselves |
| `Sas2ircu.GatherStep` | sas2ircu.py:503-507 | one more controller either fails the run with its id and error or adds its metrics |
| `Sas2ircu.GatherFailureSticks` | sas2ircu.py:506-507 | once a dump fails to parse, the run has failed with that error |
| `Sas2ircu.Collect` | sas2ircu.py:489-515 | `main`'s loop parses each dump, groups the metrics by name, stops at the first unparsable dump (split by the corrected splitter) or when nothing was found, and prints the exposition |
| `Sas2ircu.OutcomesTemplated` | sas2ircu.py:195 | every metric parsed is made from the `sas2ircu_state_ok` template |
| `Sas2ircu.GatherFromStateOk` | sas2ircu.py:195 | every gathered metric is a `sas2ircu_state_ok` gauge |
| `Sas2ircu.NamedAll` | sas2ircu.py:505 | metrics all of one name are all listed under it |
| `Sas2ircu.GroupedSingle` | sas2ircu.py:505 | the grouping holds the one name `sas2ircu_state_ok` with every metric |
| `Sas2ircu.ExpositionSingle` | sas2ircu.py:512-515 | one name prints its header, then its lines sorted |
| `Sas2ircu.StateOkHeader` | sas2ircu.py:18-20 | `type_help_header` of the template is `# HELP sas2ircu_state_ok reports whether device state is ok` and `# TYPE sas2ircu_state_ok gauge` |
| `Sas2ircu.Emit` | sas2ircu.py:509-515 | `No metrics were parsed` when nothing was gathered, otherwise the exposition of the grouping |
| `Sas2ircu.Report` | sas2ircu.py:489-515 | what `main` prints for the dumps, or why it stops |
| `Sas2ircu.ReportShape` | sas2ircu.py:509-515 | the output is the `# HELP` and `# TYPE` lines of `sas2ircu_state_ok`, then every metric's line, sorted |
| `Sas2ircu.GatherAppend` | sas2ircu.py:490-507 | gathering two runs of successful outcomes gathers each in turn |
| `Sas2ircu.OutcomesAppend` | sas2ircu.py:490-504 | the outcomes of two controller lists are those of each |
| `Sas2ircu.GatheredAppend` | sas2ircu.py:490-507 | the metrics of two successful controller lists are those of each, in turn |
| `Sas2ircu.GatheredFromStateOk` | sas2ircu.py:195 | every metric gathered from the dumps is a `sas2ircu_state_ok` gauge |
| `Sas2ircu.EmitPermutation` | sas2ircu.py:509-515 | rearranged metrics print the same output |
| `Sas2ircu.ReportOrderIndependent` | sas2ircu.py:489-515 | the output does not depend on the order in which the controllers were read |
| `MptLines.MatchVolume` | mpt-status.py:21-32 | `VOLUME_LINE_RE.match(line)`: the seven fields in order, then `flags:` and the rest of the line as the flags, or no match |
| `MptLines.EndingAt` | mpt-status.py:53-69 | the disk ending at one split point: `\s+sync_state:\s*(\d+)` for a physical disk, `\s+sync_state:\s*n/a` for a spare |
| `MptLines.MatchDisk` | mpt-status.py:42-71 | `PHYS_LINE_RE.match` or `SPARE_LINE_RE.match`: the eight fields, then the flags up to the last split where the ending matches, or no match |
| `MptLines.IsProgress` | mpt-status.py:335 | `re.match(r"scsi_id:\d+\s+\d+%", line, re.IGNORECASE)` |
| `MptLines.ValueAt` | mpt-status.py:21-30 | `\s*(cls+)` consumes some text |
| `MptLines.FieldAt` | mpt-status.py:21-30 | `\s+key\s*(cls+)` consumes some text |
| `MptLines.FieldsAt` | mpt-status.py:21-30 | the fields read in a row give one value per field |
| `MptLines.DiskFields` | mpt-status.py:42-51 | the disk patterns have eight fields before the flags |
| `MptLines.FlagsStart` | mpt-status.py:30 | `\s+flags:` consumes some text |
| `MptLines.Endings` | mpt-status.py:52-53 | one ending result per split point of the flags text |
| `MptLines.LastIn` | mpt-status.py:52-53 | the chosen split lies after the first flag character and within the line |
| `MptLines.LastInIsLast` | mpt-status.py:52-53 | the greedy `(.+)` stops at the last position where the ending matches; there is no match exactly when the ending matches nowhere |
| `MptLines.LastInSkips` | mpt-status.py:52-53 | positions where the ending does not match are walked past |
| `MptLines.MatchDiskSync` | mpt-status.py:53 | a physical disk line always captures a sync percentage, a spare line never does |
| `MptLines.NoEndingAt` | mpt-status.py:53 | the ending needs whitespace where it starts |
| `MptLines.SecondKey` | mpt-status.py:44-45 | once `ioc:` is read, the second field's key follows |
| `MptLines.VolumeKey` | mpt-status.py:23-24 | a volume line has `vol_id:` after the controller |
| `MptLines.DiskKey` | mpt-status.py:44-45 | a disk line has `phys_id:` or `spare_id:` after the controller |
| `MptLines.KeysExclusive` | mpt-status.py:23-24 | keys with different first letters, ignoring case, cannot both follow the controller |
| `MptLines.FormatsExclusive` | mpt-status.py:21-71 | a line matches at most one of the volume, physical disk and hot spare patterns |
| `MptLines.NoControllerNoFormat` | mpt-status.py:21-71 | a line not starting with `ioc:` matches none of the patterns |
| `MptLines.ProgressMatchesNoFormat` | mpt-status.py:335 | a `scsi_id:N N%` progress line matches none of the patterns |
| `MptLines.TightHasNoSpace` | mpt-status.py:21-71 | no field value class holds whitespace |
| `MptLines.BlankRun` | mpt-status.py:21-71 | the whitespace run in front of a key ends exactly where the printed padding ends, whatever its length |
| `MptLines.KeyPrinted` | mpt-status.py:21-71 | a printed key is found, ignoring case, after any run of padding, and reading goes on after it |
| `MptLines.ValueAtPrinted` | mpt-status.py:21-71 | a printed value after any padding behind the colon, followed by whitespace or nothing, is captured whole |
| `MptLines.FieldAtPrinted` | mpt-status.py:21-71 | a printed field, with padding before its key and after its colon, is read back as its value |
| `MptLines.PrintedBoundary` | mpt-status.py:21-71 | printed fields after the first start with whitespace, so the value before them ends there |
| `MptLines.FieldsAtStep` | mpt-status.py:21-71 | reading fields reads the first, then the rest from what follows |
| `MptLines.SpacedSplit` | mpt-status.py:21-71 | the padding of the first field, and that of the others, which all need whitespace in front |
| `MptLines.FieldsAtPrintedStep` | mpt-status.py:21-71 | a printed field is read back in front of the fields already read back after it |
| `MptLines.FieldsAtPrinted` | mpt-status.py:21-71 | fields printed one after the other, with any padding the patterns allow, are read back, with the text after them |
| `MptLines.FlagsStartPrinted` | mpt-status.py:30 | printed flags are found after `flags:` and the padding in front of it |
| `MptLines.RestOfLine` | mpt-status.py:30 | text without newline is one `.` run |
| `MptLines.MatchVolumeOf` | mpt-status.py:21-32 | once the fields are read, the rest of the line is the flags |
| `MptLines.VolumeRoundTrip` | mpt-status.py:19-32 | a volume line printed with any padding the pattern allows (`state: OPTIMAL` and aligned columns included) is read back field for field |
| `MptLines.SyncPrinted` | mpt-status.py:53 | a printed sync percentage is read by the physical disk ending |
| `MptLines.NoSyncPrinted` | mpt-status.py:69 | a printed `n/a` is read by the spare ending |
| `MptLines.EndingPrinted` | mpt-status.py:53-69 | the printed ending is the one the disk's own pattern expects |
| `MptLines.EndingNeedsKey` | mpt-status.py:53-69 | an ending matches only after some whitespace followed by `sync_state:` |
| `MptLines.SyncTextPlain` | mpt-status.py:53-69 | a printed sync percentage or `n/a` holds no underscore and no newline |
| `MptLines.EndingPlain` | mpt-status.py:53-69 | the printed ending holds no newline, and no underscore past the key's own |
| `MptLines.NoEndingPast` | mpt-status.py:53-69 | no ending starts where the text ahead holds no underscore for the key to match |
| `MptLines.MatchDiskOf` | mpt-status.py:42-71 | once the fields are read, the flags end at the last split where the ending matches |
| `MptLines.NoEndingInside` | mpt-status.py:53-69 | no ending starts inside the printed ending |
| `MptLines.FlagsAndEndingOneLine` | mpt-status.py:52-53 | flags on one line followed by the ending are one `.` run |
| `MptLines.DiskTail` | mpt-status.py:52-53 | the greedy flags stop in front of the printed ending |
| `MptLines.DiskRoundTrip` | mpt-status.py:37-71 | a disk line printed with any padding the pattern allows, its sync field and the ASC/ASCQ trailer after it, is read back field for field, even when the flags mention `sync_state:` |
| `MptStatus.StateSeries` | mpt-status.py:154-158 | one state series per known state |
| `MptStatus.FlagSeries` | mpt-status.py:159-163 | one flag series per known flag |
| `MptStatus.StateOneHot` | mpt-status.py:154-158 | at most one state series is 1, one is 1 exactly when the captured state is a known state, and each carries the base labels plus its own `state` |
| `MptStatus.FlagsSet` | mpt-status.py:151-163 | a flag series is 1 exactly when its flag is one of the whitespace-separated flags captured, and carries the base labels plus its own `flag` |
| `MptStatus.SeriesLabelsDistinct` | mpt-status.py:154-163 | series over distinct symbols never share their labels |
| `MptStatus.UniversesDistinct` | mpt-status.py:34-84 | the known states and flags of each device kind have no repeats |
| `MptStatus.SeriesTemplates` | mpt-status.py:154-163 | state series come from `mpt_status_state`, flag series from `mpt_status_flag` |
| `MptStatus.LineSeriesShape` | mpt-status.py:153-172 | a line's metrics are its state series, then its flag series, then its gauges |
| `MptStatus.VolumeGaugesShape` | mpt-status.py:164-171 | a volume adds the size gauge, then the disk count |
| `MptStatus.VolumeMetricsShape` | mpt-status.py:124-172 | a volume line gives four state series, four flag series, then size and disk count |
| `MptStatus.DiskGaugesShape` | mpt-status.py:220-227 | a physical disk adds the sync gauge, then the size; a spare only the size |
| `MptStatus.DiskMetricsShape` | mpt-status.py:175-278 | a disk line gives nine state series, two flag series, then its gauges |
| `MptStatus.VolumeMetrics` | mpt-status.py:144-172 | the volume series: the state series over `VOLUME_STATES`, the flag series over `VOLUME_FLAGS`, then size and disk count, all with the volume's base labels |
| `MptStatus.DiskMetrics` | mpt-status.py:198-228 | the disk series: the state series over `DISK_STATES`, the flag series over `DISK_FLAGS`, then the sync gauge of a physical disk and the size |
| `MptStatus.VolumeLine` | mpt-status.py:124-172 | `parse_volume_line`: the volume series of a matching line, else `LineParseError` |
| `MptStatus.DiskLine` | mpt-status.py:175-278 | `parse_phys_line` or `parse_spare_line`: the disk series of a matching line, else `LineParseError` |
| `MptStatus.LineMetrics` | mpt-status.py:281-288 | `parse_line`: the result of the first of the three parsers that reads the line, else `UnrecognizedLine` |
| `MptStatus.LineCases` | mpt-status.py:281-288 | `parse_line` tries the volume, physical disk and hot spare parsers in turn, then raises `UnrecognizedLine` |
| `MptStatus.LineUnrecognized` | mpt-status.py:281-288 | `parse_line` fails, always with `UnrecognizedLine`, exactly when no pattern matches |
| `MptStatus.ParsersExclusive` | mpt-status.py:281-288 | at most one parser reads any line |
| `MptStatus.LineOfParser` | mpt-status.py:281-288 | whichever parser reads a line, its result is what `parse_line` returns |
| `MptStatus.ProgressUnrecognized` | mpt-status.py:335-337 | a progress line would be unrecognized without the skip in `main` |
| `MptStatus.LineFromTemplates` | mpt-status.py:111-121 | every metric `parse_line` returns comes from one of the five templates |
| `MptStatus.ExpandStates` | mpt-status.py:154-158 | the loop over the known states builds the state series |
| `MptStatus.ExpandFlags` | mpt-status.py:159-163 | the loop over the known flags builds the flag series |
| `MptStatus.VolumeSeries` | mpt-status.py:144-172 | the body of `parse_volume_line` after the match gives the volume metrics |
| `MptStatus.ParseVolumeLine` | mpt-status.py:124-172 | `parse_volume_line` gives the volume metrics of a matching line, else `LineParseError` |
| `MptStatus.AppendGauges` | mpt-status.py:220-227 | the sync gauge (physical only) then the size are appended |
| `MptStatus.DiskSeries` | mpt-status.py:198-228 | the body of `parse_phys_line` / `parse_spare_line` after the match gives the disk metrics |
| `MptStatus.ParseDiskLine` | mpt-status.py:175-278 | `parse_phys_line` / `parse_spare_line` give the disk metrics of a matching line, else `LineParseError` |
| `MptStatus.Parse` | mpt-status.py:285 | calling one parser gives its result |
| `MptStatus.ParseLine` | mpt-status.py:281-288 | `parse_line` returns the first parser's metrics, or raises `UnrecognizedLine` |
| `MptStatus.Judge` | mpt-status.py:334-342 | one step per numbered line |
| `MptStatus.JudgeSnoc` | mpt-status.py:334-342 | judging one more line appends that line and its step |
| `MptStatus.JudgeAppend` | mpt-status.py:334-342 | judging two runs of lines judges each in turn |
| `MptStatus.FoundSnoc` | mpt-status.py:339-342 | one more line adds what it yields, and its complaint when unrecognizable |
| `MptStatus.NumberedSnoc` | mpt-status.py:334 | `enumerate` numbers one more line with its index |
| `MptStatus.FoundAppend` | mpt-status.py:334-342 | the metrics of two runs of lines are those of each |
| `MptStatus.ComplaintsAppend` | mpt-status.py:334-342 | the complaints about two runs of lines are those about each |
| `MptStatus.EntriesAppend` | mpt-status.py:324-334 | the numbered lines of two lists of outputs are those of each |
| `MptStatus.FoundFromTemplates` | mpt-status.py:339-340 | every metric found comes from one of the five templates |
| `MptStatus.TemplatesByName` | mpt-status.py:111-121 | the five templates have five different names |
| `MptStatus.TemplatedOnePerName` | mpt-status.py:111-121 | metrics made from the templates share one template per name |
| `MptStatus.Report` | mpt-status.py:323-350 | what `main` prints for the status outputs of the volumes in turn, or `No metrics were parsed` |
| `MptStatus.ReportOrderIndependent` | mpt-status.py:323-350 | the output does not depend on the order in which the volumes were queried |
| `MptStatus.ScanLine` | mpt-status.py:335-342 | a progress line is skipped, a readable line yields its metrics, any other is unrecognized |
| `MptStatus.ScanLines` | mpt-status.py:334-342 | the inner loop keeps the dictionary for the metrics found so far and the complaints with their line numbers |
| `MptStatus.Collect` | mpt-status.py:323-350 | `main` reports every unrecognized line with its number, and prints the exposition, or fails when nothing was found |

## Left out

- Running the tools: the probe commands (`sas2ircu LIST`, `mpt-status -p`), their 30-second timeouts and their failures (sas2ircu.py:470-487, mpt-status.py:301-321) are outside the model. `Sas2ircu.Collect` takes the dump text of each controller, and `MptStatus.Collect` takes the status output of each volume.
- The probe output parsing (sas2ircu.py:481-487, mpt-status.py:311-321) and the failures of the `DISPLAY` and status commands (sas2ircu.py:494-500, mpt-status.py:326-331) are left out with the commands.
- Byte decoding with `errors="replace"` is left out: the model starts from decoded text.
- Printing to stderr and the exit codes become return values. `fatal` is a `Failure`. The `error` lines of mpt-status are the returned list of (line number, line) complaints.
- `\d` and `\w` are modelled on ASCII digits, letters and `_` only. Python also matches other Unicode digits and letters.
- The `if len(part) == 0: continue` guard (sas2ircu.py:177) is not modelled. `DisplaySections.BlocksNonEmpty` proves that the splitter never returns an empty record, so the guard never fires.
- `MptLines.DiskRoundTrip` puts exactly one whitespace character in front of `sync_state:`. With a longer run, the greedy `flags:(.+)` takes all but the last of those characters into the flags, so the flags do not read back unchanged.
- `Sas2ircu.DisplayMetrics` uses the corrected splitter `DisplaySections.SplitDisplaySections` (see Findings). As written, a dump with ten segments and a rejected header makes `split_display_sections` raise `NameError` (sas2ircu.py:135). The `except ParseError` of `main` (sas2ircu.py:506) does not catch that, so the collector stops with a traceback. The model reports a `ParseError` for that controller instead. `DisplaySections.SplitDisplaySectionsAsWritten` models the crash, and `DisplaySections.RejectedHeaderIsNotParseError` proves that this is the only difference.
- `Sas2ircu.ParseDisplay` follows the corrected splitter, as `Sas2ircu.DisplayMetrics` does. Where the code as written raises `NameError`, it returns a `ParseError`.
- `Sas2ircu.MalformedDisplayFails` is about the corrected splitter. For a rejected header, the code as written raises `NameError` rather than the `ParseError` this lemma names.
- `Sas2ircu.Collect` and `Sas2ircu.Report` follow the corrected splitter. For a rejected header they end with `DisplayParseFailed`, where the code as written stops with an uncaught `NameError` traceback.
- `labels.copy()` is not modelled: label maps are values here, so no two metrics can share one.
- `parse_phys_line` and `parse_spare_line` are one parser, `MptStatus.ParseDiskLine`, selected by the kind of disk. The two source functions differ only in their pattern, the `device` label and the sync gauge.
- The two volume gauges are appended in one step (size, then disk count), not by two `append` calls.
- Controller and enclosure sections are split but not parsed, as in the source (sas2ircu.py:450).

## Findings

| source | as written | input that shows it | evidently intended | confidence | as-written member | corrected member |
|---|---|---|---|---|---|---|
| sas2ircu.py:135 | the message for a rejected section header formats the name `pattern`, which is not defined, so a rejected header raises `NameError`; the `except ParseError` of `main` (sas2ircu.py:506) does not catch it | the dump `--\nx\n` followed by eight `--\n`: ten segments, the second `x\n`, which is not the `Controller information` header | raise `ParseError("Expected section ... but got x\n")`, which `main` reports as a fatal parse failure for that controller | not executed | `DisplaySections.BadHeaderRaisesNameError` | `DisplaySections.SplitDisplaySections` |
