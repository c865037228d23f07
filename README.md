# CloudWatch log exception statistics, modelled in Dafny

The repository holds two small Java programs that pull log events from
Amazon CloudWatch Logs. Each program parses every message into a pair
(component, exception class name), counts the messages per pair in a nested
`HashMap`, and renders the counts as an HTML table. The two programs parse
differently and render differently, so they are modelled separately. Only the
map update they share (`computeIfAbsent` followed by `merge`) is defined once.

- `JavaStrings.dfy` holds the `java.lang.String` operations the parsers are
  built from:
  - `indexOf` with a clamped `fromIndex`, `lastIndexOf` and `contains`;
  - `trim`, which removes every character up to U+0020;
  - the decimal conversions behind `String.valueOf(int)` and `Integer.parseInt`.
- `Counts.dfy` holds:
  - the count map `map<string, map<string, nat>>` and `Record`, the in-place
    update both programs perform;
  - `Tally`, the map obtained by recording a sequence of pairs;
  - `Messages`, the messages of a sequence of result pages;
  - the `HashMap` iteration order, given as a parameter (`comps`, `order`);
  - `Entries`, the entries listed in that order.
- `CloudwatchEvents.dfy` models the first program:
  - the delimiter parser (`indexOf` arithmetic on `~` and `" ~ "`);
  - `extractExceptionClass`, `extractExceptionData` and `extractSubExceptionData`;
  - `getStats`, including the exception thrown by `substring(firstTilde + 1, -1)`.
    The catch block turns that exception into an early return of the map
    built so far.
  - the three-column renderer, which has no closing tag.
- `CloudwatchEventsTest.dfy` models the second program:
  - scanners for the two fixed patterns `~\s*(.*?)\s*~` and
    `(\w+(\.\w+)*Exception):`. Each is proved to return the match
    `Matcher.find` returns: the leftmost start, then the greedy and lazy
    quantifiers' backtracking priority. Line terminators are handled: `.`
    does not match them and `\s` matches `\n` and `\r`.
  - the cut after the last `.`;
  - `getStats`, which has no failure path per message;
  - the renderer with serial numbers, `rowspan` cells and a footer.

`getStats` and both `getDataInTableFormat` methods are imperative methods.
Their loops follow the Java loops: pages, then events; components, then
exceptions, with `countSno` and `firstRow` in the second renderer. In each
renderer the inner loop over one component's exceptions is a method of its
own, `AppendComponentRows`. Each method is proved equal to a specification
function (`StatsOf`, `TableHtml`). The lemmas state what those functions
promise.

The first program's behaviour as coded differs from the plain reading of its
line format ("fields separated by ` ~ `"). Where they differ, the code is followed:

- The component runs from the first `~` (not the first `" ~ "`) to the next
  `" ~ "` after it.
- The exception field begins at the `~` of the third separator and is
  trimmed before use.
- The `".Exception"` test is made on the whole text, not next to the marker.
- A line whose single `" ~ "` contains the line's first `~`, such as
  `"x ~ y"`, makes `substring` throw. That ends the whole scan.

## Model

| member | source | states |
|---|---|---|
| JavaStrings.IndexOf | src/main/java/com/example/cloudwatchlogs/CloudwatchEvents.java:105-108 | `indexOf(str, from)` is -1 or an occurrence at or after the clamped `from`, with no occurrence between `from` and it |
| JavaStrings.LastIndexOf | src/main/java/com/example/cloudwatchlogs/CloudwatchEvents.java:158 | `lastIndexOf(str, from)` is -1 or an occurrence at or before `from`, with none after it up to `from` |
| JavaStrings.LastIndexOfContains | src/main/java/com/example/cloudwatchlogs/CloudwatchEvents.java:104 | `lastIndexOf(" ~ ") != -1` holds exactly when the message contains `" ~ "` |
| JavaStrings.Contains | src/main/java/com/example/cloudwatchlogs/CloudwatchEvents.java:163 | `contains(str)` holds exactly when `str` occurs somewhere in the text; `LastIndexOfContains` ties it to the `lastIndexOf` test |
| JavaStrings.Trim | src/main/java/com/example/cloudwatchlogs/CloudwatchEvents.java:110 | `trim` leaves the text between the leading and trailing characters up to U+0020; the result starts and ends with neither |
| JavaStrings.TrimEnds | src/main/java/com/example/cloudwatchlogs/CloudwatchEvents.java:110 | a trimmed text neither starts nor ends with a character up to U+0020 |
| JavaStrings.TrimSliceKeepsSuffix | src/main/java/com/example/cloudwatchlogs/CloudwatchEvents.java:162 | trimming a slice that ends with a word free of such characters removes only leading spaces and keeps the word at the end |
| JavaStrings.NatToString | src/main/java/com/example/cloudwatchlogs/CloudwatchEvents.java:114 | `String.valueOf` of a count is a non-empty run of digits without a leading zero |
| JavaStrings.ParsePrinted | src/main/java/com/example/cloudwatchlogs/CloudwatchEvents.java:114 | `Integer.parseInt(String.valueOf(n)) == n`, so the counts stored as strings behave as numbers |
| JavaStrings.ParseDecimal | src/main/java/com/example/cloudwatchlogs/CloudwatchEvents.java:114 | `Integer.parseInt` of a digit string is 0 exactly when every digit is `0`; `ParsePrinted` and `PrintParsed` make it the inverse of `String.valueOf` |
| JavaStrings.PrintParsed | src/main/java/com/example/cloudwatchlogs/CloudwatchEventsTest.java:119 | `String.valueOf(Integer.parseInt(s)) == s` for every numeral without a leading zero, so a stored count string is always the numeral `valueOf` wrote |
| Counts.Record | src/main/java/com/example/cloudwatchlogs/CloudwatchEvents.java:113-114 | `computeIfAbsent` + `merge` add exactly 1 to the pair's count (from 0 to 1 when new), change no other pair, and keep every count at least 1 |
| Counts.Tally | src/main/java/com/example/cloudwatchlogs/CloudwatchEvents.java:113-114 | recording pairs into an empty map yields a map with no component whose exception map is empty and no zero count |
| Counts.TallyCounts | src/main/java/com/example/cloudwatchlogs/CloudwatchEventsTest.java:118-119 | after recording a sequence of pairs each pair's count is the number of times it was recorded |
| Counts.EntriesExact | src/main/java/com/example/cloudwatchlogs/CloudwatchEvents.java:133-141 | visiting both maps in any iteration order lists every (component, exception) entry exactly once with its count |
| Counts.EnumerationSize | src/main/java/com/example/cloudwatchlogs/CloudwatchEventsTest.java:157 | an iteration order of a key set has as many elements as the map has entries (`exceptionMap.size()`) |
| CloudwatchEvents.ExtractExceptionData | src/main/java/com/example/cloudwatchlogs/CloudwatchEvents.java:152-170 | "" without `"Exception:"` or without a `.` at or before it. Otherwise, without `".Exception"` in the text: the trimmed text from after the last such dot through `Exception`, which has no dot. With `".Exception"` anywhere: exactly `extractSubExceptionData(text, "Exception:")` |
| CloudwatchEvents.ExtractSubExceptionData | src/main/java/com/example/cloudwatchlogs/CloudwatchEvents.java:172-183 | non-empty exactly when a second, non-overlapping `"Exception:"` exists with a `.` before it; it is then the trimmed text from after the last such dot through `Exception`, with no dot |
| CloudwatchEvents.NameAfterDot | src/main/java/com/example/cloudwatchlogs/CloudwatchEvents.java:162 | the cut `trim(text[lastDot+1 .. idx+9))` ends with `Exception`, contains no dot, starts with a non-space, and only spaces precede it after the dot |
| CloudwatchEvents.ExtractExceptionClass | src/main/java/com/example/cloudwatchlogs/CloudwatchEvents.java:146-150 | the class name taken from the trimmed exception field is "" or a dot-free name ending in `Exception` |
| CloudwatchEvents.Locate | src/main/java/com/example/cloudwatchlogs/CloudwatchEvents.java:105-109 | the first `~`, then each `" ~ "` is the first one after the previous position (or -1); the fourth defaults to the message length |
| CloudwatchEvents.ParseMessage | src/main/java/com/example/cloudwatchlogs/CloudwatchEvents.java:104-115 | the message throws exactly when it has a `~` and a `" ~ "` but no `" ~ "` after its first `~`. It is counted exactly when three separators follow the first `~` |
| CloudwatchEvents.CountedFields | src/main/java/com/example/cloudwatchlogs/CloudwatchEvents.java:105-115 | a counted message is filed under the trimmed text between its first `~` and the next separator, which neither starts nor ends with a space. Its exception is the class name from the field after the third separator: "" or a dot-free name ending in `Exception` |
| CloudwatchEvents.ParseMessageOutcome | src/main/java/com/example/cloudwatchlogs/CloudwatchEvents.java:104-110 | a message without `~` or without `" ~ "` is passed over; the exception case is stated with `contains` |
| CloudwatchEvents.FailsIffSoleSeparator | src/main/java/com/example/cloudwatchlogs/CloudwatchEvents.java:105-110 | `substring` throws exactly on messages with a single `" ~ "` whose `~` is the message's first `~` |
| CloudwatchEvents.TwoFieldLineFails | src/main/java/com/example/cloudwatchlogs/CloudwatchEvents.java:106-110 | the line `"x ~ y"` throws |
| CloudwatchEvents.FirstFailure | src/main/java/com/example/cloudwatchlogs/CloudwatchEvents.java:124-127 | the position of the first message that throws, with none before it |
| CloudwatchEvents.StatsCounts | src/main/java/com/example/cloudwatchlogs/CloudwatchEvents.java:98-127 | each returned count is the number of messages before the first throwing one that parse to that pair |
| CloudwatchEvents.StopsAt | src/main/java/com/example/cloudwatchlogs/CloudwatchEvents.java:124-127 | when a message throws, the returned map holds exactly the counts of the messages before it, whatever follows |
| CloudwatchEvents.RunsToEnd | src/main/java/com/example/cloudwatchlogs/CloudwatchEvents.java:89-122 | when no message throws, every message is counted |
| CloudwatchEvents.Step | src/main/java/com/example/cloudwatchlogs/CloudwatchEvents.java:104-115 | a counted message adds one to its pair (`Record`), a passed-over one changes nothing |
| CloudwatchEvents.GetStats | src/main/java/com/example/cloudwatchlogs/CloudwatchEvents.java:81-128 | the loop over pages and events returns `StatsOf` of all messages: the counts of the messages before the first throwing one |
| CloudwatchEvents.TableListsEntries | src/main/java/com/example/cloudwatchlogs/CloudwatchEvents.java:129-144 | the table is the fixed three-column header followed by one row per entry, listing every entry exactly once with its count |
| CloudwatchEvents.AppendComponentRows | src/main/java/com/example/cloudwatchlogs/CloudwatchEvents.java:135-141 | the inner loop appends one row per exception of the component, in the iteration order of its map, after what was already built |
| CloudwatchEvents.EmptyTable | src/main/java/com/example/cloudwatchlogs/CloudwatchEvents.java:129-144 | an empty map yields the header alone; no closing `</table>` is appended |
| CloudwatchEvents.GetDataInTableFormat | src/main/java/com/example/cloudwatchlogs/CloudwatchEvents.java:129-144 | the `StringBuilder` loops build `TableHtml` for the given iteration order |
| CloudwatchEventsTest.SpaceRun | src/main/java/com/example/cloudwatchlogs/CloudwatchEventsTest.java:28 | the greedy `\s*`: the longest run of `\s` characters from a position |
| CloudwatchEventsTest.LazyGroup | src/main/java/com/example/cloudwatchlogs/CloudwatchEventsTest.java:28 | the lazy `(.*?)` ends at the first position where `\s*~` follows, and `.` never crosses a line terminator |
| CloudwatchEventsTest.LongestLead | src/main/java/com/example/cloudwatchlogs/CloudwatchEventsTest.java:28 | every match from a `~` can be redone with the first `\s*` taking the whole space run, so backtracking it never helps |
| CloudwatchEventsTest.MatchAt | src/main/java/com/example/cloudwatchlogs/CloudwatchEventsTest.java:28 | the match found from a start is a match, and the one with the longest first `\s*`, then the shortest group; None means no match from there |
| CloudwatchEventsTest.FindComp | src/main/java/com/example/cloudwatchlogs/CloudwatchEventsTest.java:107-110 | `compMatcher.find()` returns the leftmost match with that preference; None means no match anywhere |
| CloudwatchEventsTest.ComponentShape | src/main/java/com/example/cloudwatchlogs/CloudwatchEventsTest.java:115 | group 1 holds no `~` and no line terminator, and neither starts nor ends with `\s`; it may be empty |
| CloudwatchEventsTest.ComponentFoundIff | src/main/java/com/example/cloudwatchlogs/CloudwatchEventsTest.java:107-110 | on a single line, the component pattern finds a match exactly when the message holds two `~` |
| CloudwatchEventsTest.FindComponent | src/main/java/com/example/cloudwatchlogs/CloudwatchEventsTest.java:107-115 | `compMatcher.find()` then `group(1)`: present exactly when `FindComp` finds a match; `ComponentShape` and `LeftmostComponent` state which text it is |
| CloudwatchEventsTest.LeftmostComponent | src/main/java/com/example/cloudwatchlogs/CloudwatchEventsTest.java:107-115 | a match with no `~` before it, no `~` inside its group and no `\s` at the group's ends is the one `find` reports |
| CloudwatchEventsTest.ComponentStopsAtLineBreak | src/main/java/com/example/cloudwatchlogs/CloudwatchEventsTest.java:28 | `"~a\nb~"` has no component: `.` does not match the line break |
| CloudwatchEventsTest.ExcMatchAtRunEnd | src/main/java/com/example/cloudwatchlogs/CloudwatchEventsTest.java:29 | a match of `(\w+(\.\w+)*Exception):` from a start can only end where the run of word characters and dots ends |
| CloudwatchEventsTest.ExcAt | src/main/java/com/example/cloudwatchlogs/CloudwatchEventsTest.java:29 | the exception pattern matches from a start exactly when it returns the end of group 1 |
| CloudwatchEventsTest.FindExc | src/main/java/com/example/cloudwatchlogs/CloudwatchEventsTest.java:108-110 | `exceptionMatcher.find()` returns the leftmost match; None means no match anywhere |
| CloudwatchEventsTest.FindExceptionGroup | src/main/java/com/example/cloudwatchlogs/CloudwatchEventsTest.java:108-116 | `exceptionMatcher.find()` then `group(1)`: present exactly when `FindExc` finds a match; `LeftmostException` and `GroupShape` state which text it is |
| CloudwatchEventsTest.LeftmostException | src/main/java/com/example/cloudwatchlogs/CloudwatchEventsTest.java:108-116 | a match not preceded by a word character or a dot, and with no colon before it, is the one `find` reports |
| CloudwatchEventsTest.MatchGroupShape | src/main/java/com/example/cloudwatchlogs/CloudwatchEventsTest.java:29 | the group of any match is a dotted name followed by `Exception` |
| CloudwatchEventsTest.GroupShape | src/main/java/com/example/cloudwatchlogs/CloudwatchEventsTest.java:116 | group 1 is a dotted name followed by `Exception` |
| CloudwatchEventsTest.SimpleNameSuffix | src/main/java/com/example/cloudwatchlogs/CloudwatchEventsTest.java:117 | `substring(lastIndexOf(".") + 1)` is the longest suffix of the group without a dot: the whole group when it has none, else what follows its last dot |
| CloudwatchEventsTest.SimpleNameShape | src/main/java/com/example/cloudwatchlogs/CloudwatchEventsTest.java:117 | what follows the group's last `.` has no dot, only word characters, and ends with `Exception` after at least one more character |
| CloudwatchEventsTest.ParseMessage | src/main/java/com/example/cloudwatchlogs/CloudwatchEventsTest.java:107-117 | a message is counted exactly when both patterns find a match |
| CloudwatchEventsTest.ParsedPairShape | src/main/java/com/example/cloudwatchlogs/CloudwatchEventsTest.java:110-117 | a counted pair is a component without `~` or outer `\s` and a simple class name of word characters ending in `Exception` |
| CloudwatchEventsTest.SampleComponent | src/main/java/com/example/cloudwatchlogs/CloudwatchEventsTest.java:107-115 | in the sample line the component is `campaigncore` |
| CloudwatchEventsTest.SampleGroup | src/main/java/com/example/cloudwatchlogs/CloudwatchEventsTest.java:108-116 | in the sample line group 1 of the exception pattern is `com.foo.BarException` |
| CloudwatchEventsTest.SampleSimpleName | src/main/java/com/example/cloudwatchlogs/CloudwatchEventsTest.java:117 | the cut after the last `.` of `com.foo.BarException` is `BarException` |
| CloudwatchEventsTest.SampleLine | src/main/java/com/example/cloudwatchlogs/CloudwatchEventsTest.java:107-117 | `"INFO ~ campaigncore ~ req-123 ~ com.foo.BarException: timeout ~ extra"` is counted under (`campaigncore`, `BarException`) |
| CloudwatchEventsTest.StatsCounts | src/main/java/com/example/cloudwatchlogs/CloudwatchEventsTest.java:95-125 | after all pages each pair's count is the number of messages that parse to it |
| CloudwatchEventsTest.StatsStep | src/main/java/com/example/cloudwatchlogs/CloudwatchEventsTest.java:110-120 | a matching message adds exactly one to its pair; any other message leaves the map unchanged |
| CloudwatchEventsTest.GetStats | src/main/java/com/example/cloudwatchlogs/CloudwatchEventsTest.java:85-132 | the loop over pages and events returns `StatsOf` of all messages |
| CloudwatchEventsTest.LayoutEntries | src/main/java/com/example/cloudwatchlogs/CloudwatchEventsTest.java:148-164 | the rows show the entries in the maps' iteration order |
| CloudwatchEventsTest.TableListsEntries | src/main/java/com/example/cloudwatchlogs/CloudwatchEventsTest.java:148-164 | the body lists every entry exactly once with its count, whatever the iteration order |
| CloudwatchEventsTest.EmptyTable | src/main/java/com/example/cloudwatchlogs/CloudwatchEventsTest.java:134-171 | an empty map yields the `<thead>` header and `</tbody></table>` with no row between |
| CloudwatchEventsTest.BlockLeads | src/main/java/com/example/cloudwatchlogs/CloudwatchEventsTest.java:151-160 | only the first row of a component carries the serial number and component cells |
| CloudwatchEventsTest.SerialNumbers | src/main/java/com/example/cloudwatchlogs/CloudwatchEventsTest.java:147-165 | the leading cells carry serial numbers 1, 2, … one per component in visiting order, each with `rowspan` equal to the component's number of exceptions |
| CloudwatchEventsTest.SerialNumbersOfStats | src/main/java/com/example/cloudwatchlogs/CloudwatchEventsTest.java:147-165 | for any map `getStats` returns, every component is numbered that way |
| CloudwatchEventsTest.LayoutSpansExact | src/main/java/com/example/cloudwatchlogs/CloudwatchEventsTest.java:151-163 | each `rowspan` covers exactly its component's rows; later rows carry only the exception and count cells, and the next component's row follows |
| CloudwatchEventsTest.SpansExactAppend | src/main/java/com/example/cloudwatchlogs/CloudwatchEventsTest.java:148-166 | appending one component's rows keeps every `rowspan` exact |
| CloudwatchEventsTest.AppendComponentRows | src/main/java/com/example/cloudwatchlogs/CloudwatchEventsTest.java:150-164 | the inner loop appends the component's rows; only the first, while `firstRow` holds, carries the serial number and component cells |
| CloudwatchEventsTest.GetDataInTableFormat | src/main/java/com/example/cloudwatchlogs/CloudwatchEventsTest.java:134-171 | the `StringBuilder` loops with `countSno` and `firstRow` build `TableHtml` for the given iteration order |

## Left out

- Building and closing the AWS client (`init`, `deinit`, credential-provider selection) is out, because it is SDK plumbing.
- `filterLogEvents` and the `nextToken` handshake are network I/O. The responses are a given `seq<seq<string>>` of pages, one per request.
  - A first response with no events is an empty page.
  - The do-while loop's first request is not modelled separately.
- A network or SDK exception inside the `try` is not modelled. The only exception modelled is the one `substring` throws in the first program.
- `convertStringDateToEpochMs`, `getCurrentTimeInUtcEpochMs` and the `Date` prints are out. They only read the clock and call date-library parsing.
- `main`, the `System.out.println` logging, `printStackTrace` and the `RedshiftJDBC41` debug print are out. They are output side effects.
- `HashMap` iteration order is not specified by Java. The renderers take it as a parameter, and the lemmas hold for every order.
- Counts are `nat`. `JavaStrings.ParsePrinted` and `JavaStrings.PrintParsed` show that printing a count and parsing it back are inverse on the stored strings.
- Counts above 2^31 - 1 are not modelled. `Integer.parseInt` always reads back what `String.valueOf` printed; it is the `+ 1` in the merge function that wraps, from 2147483647 to -2147483648, and from then on the stored count is a negative numeral. A log would need that many messages for one pair.
- CloudwatchEvents.ExtractSubExceptionData: the source's `subStr` parameter is fixed to `"Exception:"`, its only argument. With other arguments the Java method could throw.
- CloudwatchEventsTest.DottedWords: `\w+(\.\w+)*` is stated by its characters: word characters and dots, a word character at both ends, and no two dots in a row. It is not derived from a general regular-expression semantics.
- Only these two fixed patterns are modelled, not `java.util.regex` in general. `\s` and `\w` follow the default flags, so `\w` is ASCII only.
- CloudwatchEventsTest.SerialNumbers requires every visited component to have an exception. `getStats` only produces such maps. For another map, `countSno` would still advance past an empty component.
