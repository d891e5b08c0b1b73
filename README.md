# cnv_reader: the metric descriptor parser

This project is a Dafny model of `MetricInfoReader`, the parser that the CNV
header reader of `edwrodrig/cnv_reader` applies to each metric-column
descriptor. A CNV descriptor reads `name: type, other, ... [unit]`. The PHP
constructor splits it once and stores four read-only fields:

- `name`: always set;
- `unit`: the trimmed interior of the leftmost match of the unit pattern, or null when there is none. A match is a `[`, then a run holding no bracket, then a `]`. So `[a[b]c]` gives the unit `b`, not the interior of the outer brackets;
- `type`: the first comma section that is left once every match of the unit pattern is deleted, each section is trimmed, and the sections that are `""` or `"0"` are dropped; null when none is left;
- `other`: the sections that follow `type`, in order.

The constructor has no loops and no state beyond those fields. The model is
therefore a function, `MetricInfoReader.Parse`, that returns the datatype
`MetricInfo`. The four getters are the datatype's destructors. When the
constructor never sets `unit` or `type`, that field is `None`. `other` is not
optional: it starts as the empty list (src/MetricInfoReader.php:27), and it
stays empty unless a type is found.

The files:

- `wrappers.dfy` holds `Option`.
- `php_strings.dfy` holds the PHP library functions the constructor calls:
  - `explode` as `Explode`;
  - `trim` with PHP's default set `" \t\n\r\0\x0B"` as `Trim`;
  - the `array_map` step with its trimming closure as `TrimAll`;
  - `empty`, which is true for `""` and for `"0"`, as `PhpEmpty`;
  - the `array_filter` step as `KeepNonEmpty`.
- `unit_pattern.dfy` models the one regular expression, `\[([^\[\]]*)\]`, as a scan:
  - `FindGroup` is `preg_match`, the leftmost match;
  - `RemoveUnits` is `preg_replace` with an empty replacement, which deletes every match in a single left-to-right pass.
- `metric_info_reader.dfy` holds the record, the constructor and the properties of the parse.
- `descriptor_format.dfy` holds `Format`, a printer for the descriptor layout. It is not part of the PHP code. It is the reference the parser is checked against: `ParseFormat` proves that parsing a printed record gives that record back.

Two details of the code shape the result:

- `preg_replace` (src/MetricInfoReader.php:52) deletes every match of the unit pattern in the info segment, not only the one that gave the unit. It does this in one left-to-right pass.
- `!empty(trim(...))` (src/MetricInfoReader.php:58-60) drops the section `"0"` as well as the empty ones.

The printer's own pieces are helpers of the round trip and have no row below: the function `JoinTags` and the lemmas `JoinTagsAvoids`, `JoinTagsTrimmed`, `BeforeUnitFacts`, `InfoTextShape`, `PressureFormat`, `PressureInfo` and `PressureWellFormed`.

## Model

| member | source | states |
|---|---|---|
| PhpStrings.PhpEmpty | src/MetricInfoReader.php:59 | `empty()` on a string: true exactly for `""` and `"0"`. |
| PhpStrings.Survives | src/MetricInfoReader.php:58-60 | The `array_filter` closure: a piece survives when its trimmed form is not `empty()`. |
| PhpStrings.Explode | src/MetricInfoReader.php:41 | `explode`: there is always at least one piece and no piece holds the separator. There is exactly one piece iff the separator is absent, and that piece is the whole input. |
| PhpStrings.ExplodeImplode | src/MetricInfoReader.php:53 | Joining the pieces with the separator gives back the input. |
| PhpStrings.ExplodeJoin | src/MetricInfoReader.php:53 | Splitting a join of separator-free pieces gives those pieces back. |
| PhpStrings.ExplodeCons | src/MetricInfoReader.php:41 | The first separator ends the first piece. The rest is the split of what follows it. |
| PhpStrings.ExplodeFirstTwo | src/MetricInfoReader.php:41 | `tokens[0]` is the text before the first separator. `tokens[1]` is the text between the first and the second separator, or up to the end. |
| PhpStrings.ExplodeFirst | src/MetricInfoReader.php:41 | The text before the first separator is the first piece, and the rest is the split of what follows that separator. |
| PhpStrings.ExplodeAvoids | src/MetricInfoReader.php:53 | A character absent from the input is absent from every piece. |
| PhpStrings.IndexOf | src/MetricInfoReader.php:41 | The first position of a character that occurs. |
| PhpStrings.TrimLeft | src/MetricInfoReader.php:42 | The result is no longer than the input and does not start with a blank. |
| PhpStrings.TrimRight | src/MetricInfoReader.php:42 | The result is no longer than the input and does not end with a blank. |
| PhpStrings.Trim | src/MetricInfoReader.php:42 | The result is trimmed and no longer than the input. |
| PhpStrings.TrimUnique | src/MetricInfoReader.php:42 | For any blank padding around a trimmed string, `trim` returns exactly that string. |
| PhpStrings.TrimLeftPadding | src/MetricInfoReader.php:46 | `ltrim` removes a blank prefix whole, and nothing more. |
| PhpStrings.TrimRightPadding | src/MetricInfoReader.php:46 | `rtrim` removes a blank suffix whole, and nothing more. |
| PhpStrings.TrimLeftSuffix | src/MetricInfoReader.php:46 | `ltrim` returns a suffix of its argument. |
| PhpStrings.TrimRightPrefix | src/MetricInfoReader.php:46 | `rtrim` returns a prefix of its argument. |
| PhpStrings.TrimAvoids | src/MetricInfoReader.php:56 | `trim` adds no character. |
| PhpStrings.TrimIdempotent | src/MetricInfoReader.php:59 | Trimming twice equals trimming once, which is why the filter's second `trim` changes nothing. |
| PhpStrings.TrimAll | src/MetricInfoReader.php:55-57 | The `array_map` step with its trimming closure: a new list of the same length, and each element is the trimmed input element. |
| PhpStrings.KeepNonEmpty | src/MetricInfoReader.php:58-60 | The filter never lengthens the list. KeepNonEmptyAppend gives its exact content. |
| PhpStrings.KeepNonEmptyAppend | src/MetricInfoReader.php:58-60 | The filter keeps a single element exactly when it passes `!empty(trim(e))`, and filtering a concatenation concatenates the filtered parts. Together these fix the result, repeated elements and order included. |
| PhpStrings.KeepNonEmptySound | src/MetricInfoReader.php:58-60 | The kept list is an ordered subsequence of the input. Every kept element passes `!empty(trim(e))`. |
| PhpStrings.KeepNonEmptyComplete | src/MetricInfoReader.php:58-60 | Every element that passes `!empty(trim(e))` appears in the result. This is membership only; KeepNonEmptyAppend gives the multiplicity. |
| PhpStrings.IsSubsequenceSkip | src/MetricInfoReader.php:58-60 | Ordered subsequences are preserved when the longer list gains an element in front. |
| PhpStrings.IsSubsequenceTail | src/MetricInfoReader.php:58-60 | Dropping the first element of an ordered subsequence keeps it a subsequence. |
| UnitPattern.GroupAt | src/MetricInfoReader.php:32 | `UNIT_REGEX` matches `s[i..k + 1]`: a `[` at `i`, a `]` at `k`, and no bracket between them. |
| UnitPattern.GroupEndUnique | src/MetricInfoReader.php:32 | A match of the unit pattern that starts at a given `[` ends at one place only. |
| UnitPattern.GroupsDisjoint | src/MetricInfoReader.php:32 | Two matches of the unit pattern never overlap. |
| UnitPattern.GroupShift | src/MetricInfoReader.php:32 | Matches in a suffix are the matches of the whole string, shifted by the offset. |
| UnitPattern.CloseFrom | src/MetricInfoReader.php:32 | The closing part of the pattern: it returns the first bracket at or after a position iff that bracket is `]`, and otherwise reports that no match closes there. |
| UnitPattern.MatchEnd | src/MetricInfoReader.php:32 | It gives the end of the match starting at a position, or reports that none starts there. |
| UnitPattern.FindGroup | src/MetricInfoReader.php:115 | `preg_match`: the leftmost match from an offset, or none at all. |
| UnitPattern.RemoveUnits | src/MetricInfoReader.php:52 | `preg_replace` with an empty replacement only shortens the text. |
| UnitPattern.RemoveUnitsAvoids | src/MetricInfoReader.php:52 | The replacement adds no character. |
| UnitPattern.FindGroupTail | src/MetricInfoReader.php:115 | When no match starts at 0, the leftmost match is the leftmost match of the tail, shifted by one. |
| UnitPattern.RemoveUnitsNoMatch | src/MetricInfoReader.php:52 | Where the pattern matches nowhere, the replacement changes nothing. |
| UnitPattern.RemoveUnitsLeftmost | src/MetricInfoReader.php:52 | The replacement keeps the text before the leftmost match, drops the match, and goes on right after it. |
| UnitPattern.SkipCovered | src/MetricInfoReader.php:52 | Positions inside matches contribute nothing to the uncovered text. |
| UnitPattern.SkipGroup | src/MetricInfoReader.php:52 | A whole match is skipped, and no other match straddles its end. |
| UnitPattern.KeepChar | src/MetricInfoReader.php:52 | A character where no match starts, and that no match covers, is kept. |
| UnitPattern.RemoveUnitsFrom | src/MetricInfoReader.php:52 | From any position no match straddles, the pass yields exactly the uncovered characters. |
| UnitPattern.RemoveUnitsKeepsUncovered | src/MetricInfoReader.php:52 | The result is exactly the characters of the input that lie inside no match, in order. |
| UnitPattern.RemoveUnitsIsSinglePass | src/MetricInfoReader.php:52 | `[a[b]c]` becomes `[ac]`: a group formed by the deletion is not deleted again. |
| UnitPattern.RemoveUnitsPlain | src/MetricInfoReader.php:52 | Text without `[` has no match and is left as it is. |
| UnitPattern.LeftmostGroup | src/MetricInfoReader.php:115 | A match with no `[` before it is the one `preg_match` finds. |
| UnitPattern.GroupAround | src/MetricInfoReader.php:32 | `[`, a bracket-free run, then `]` is a match. |
| UnitPattern.TrailingGroupFound | src/MetricInfoReader.php:115 | A closing `[u]` after bracket-free text is the leftmost match. |
| UnitPattern.TrailingGroup | src/MetricInfoReader.php:52 | Such a closing `[u]` is all the replacement deletes. |
| MetricInfoReader.RetrieveUnit | src/MetricInfoReader.php:114-120 | `retrieveUnit`: none iff the pattern matches nowhere. Otherwise it is the trimmed interior of the leftmost match, so `[]` gives a present, empty unit. |
| MetricInfoReader.Sections | src/MetricInfoReader.php:52-60 | The comma sections of the info segment. Every match of the unit pattern is deleted, the rest is split at commas, each piece is trimmed, and the pieces that are `""` or `"0"` are dropped, keeping order. SectionsWellFormed, SectionsAvoid and KeepNonEmptyAppend state its properties. |
| MetricInfoReader.SectionsWellFormed | src/MetricInfoReader.php:53-60 | Every section that survives is trimmed, is neither `""` nor `"0"`, and holds no comma. |
| MetricInfoReader.SectionsAvoid | src/MetricInfoReader.php:52-60 | A character absent from the info segment is absent from every section. |
| MetricInfoReader.FilterAvoids | src/MetricInfoReader.php:55-60 | Trimming and filtering pieces that lack a character keeps it absent. |
| MetricInfoReader.Describe | src/MetricInfoReader.php:48-64 | The unit is `retrieveUnit` of the info segment. The type is present iff a section survives, and it is the first surviving section. `other` is the rest of them, in order, or empty. |
| MetricInfoReader.Parse | src/MetricInfoReader.php:40-69 | The constructor. It is total. The name holds no colon and is trimmed. Without a colon, the record is the trimmed line with no unit, no type and no other tags. |
| MetricInfoReader.ParseSegments | src/MetricInfoReader.php:41-46 | The name comes from the text before the first colon. Everything else comes from the text between the first and the second colon. |
| MetricInfoReader.ParseName | src/MetricInfoReader.php:41-42 | The name is the trimmed text before the first colon, or the whole trimmed line when there is no colon. |
| MetricInfoReader.ParseOneColon | src/MetricInfoReader.php:45-46 | With one colon, the info segment is the trimmed right-hand side. |
| MetricInfoReader.ParseTwoColons | src/MetricInfoReader.php:46 | With two colons, the info segment stops at the second one. |
| MetricInfoReader.ParseIgnoresAfterSecondColon | src/MetricInfoReader.php:46 | Text after a second colon does not change the record. |
| MetricInfoReader.ParseTags | src/MetricInfoReader.php:53-60 | Every type and other tag is trimmed and is neither `""` nor `"0"`. It holds no comma and no colon. |
| DescriptorFormat.ExplodeJoinTags | src/MetricInfoReader.php:53 | The first comma of the joined tags ends the first tag. |
| DescriptorFormat.TrimAllJoinTags | src/MetricInfoReader.php:53-57 | Splitting the joined tags at commas and trimming each piece gives the tags back, whatever blank padding surrounds them. |
| DescriptorFormat.KeepAllTags | src/MetricInfoReader.php:58-60 | Well-formed tags all pass the filter. |
| DescriptorFormat.InfoTextUnit | src/MetricInfoReader.php:48-50 | The unit read back from a printed info segment is the unit printed, or none when none was printed. |
| DescriptorFormat.InfoTextStripped | src/MetricInfoReader.php:52 | Deleting the unit group of a printed info segment leaves the joined tags and their padding. |
| DescriptorFormat.InfoTextSections | src/MetricInfoReader.php:52-60 | The sections read back from a printed info segment are the tags printed, in order. |
| DescriptorFormat.FormatSplits | src/MetricInfoReader.php:41-46 | A printed descriptor with a colon is parsed as its name and its info segment. |
| DescriptorFormat.TrimAround | src/MetricInfoReader.php:42-46 | The printed name and the printed info segment are left alone by `trim`. |
| DescriptorFormat.ParseFormat | src/MetricInfoReader.php:40-69 | Round trip: for every record whose fields the parser could produce, parsing `name: type, other, ... [unit]` gives that record back. This requires tags free of brackets. |
| DescriptorFormat.ParsePressure | src/MetricInfoReader.php:40-69 | `prDM: Pressure, Digiquartz [db]` gives the name `prDM`, the unit `db`, the type `Pressure` and the other tags `[Digiquartz]`. |
| DescriptorFormat.ParseEmptyBrackets | src/MetricInfoReader.php:116 | `n: []` gives a present, empty unit and no type. |
| DescriptorFormat.ParseBareName | tests/HeaderReaderTest.php:122 | `Edwin` has no colon. It gives the name `Edwin` and nothing else. |

## Left out

- HeaderReader is not part of this model. This covers line classification, the header framing and the accumulation of indexed, plain and metric entries.
- Coordinate and Timestamp: their values are floating-point numbers and PHP `DateTime` instants parsed from text.
- The exception classes are raised only by HeaderReader. `MetricInfoReader` raises none.
- The test harness is not modelled, because it is I/O on virtual files and streams.
- The getters getName, getUnit, getType and getOther are not separate members. They are the destructors of `MetricInfo`, so reading one cannot change the record.
- General PCRE is not modelled; only the one fixed unit pattern is, as a scan. PCRE's backtracking and resource limits, and the `null` that `preg_replace` returns when it hits them, are not modelled. On a descriptor line neither limit is reached.
- PHP strings are byte strings, and the pattern has no `u` flag. The model reads one `char` per byte and does no decoding.
- DescriptorFormat.ParseFormat: it covers only records whose tags hold no `[` or `]`. The parser can return tags that hold brackets: the info segment `[a[b]c]` leaves the section `[ac]` (UnitPattern.RemoveUnitsIsSinglePass). `Format` does not always print such tags in a form that parses back to them, so the round trip is stated for bracket-free tags only.
