# InfluxDB 0.9: a verified model of its core

This project models, in Dafny, the parts of the vendored InfluxDB 0.9 (Go) whose
correctness is not plain from the code, and proves what they promise.
`dafny verify dfyconfig.toml` checks the whole project. Nothing was executed.

| part | modules | main results |
|---|---|---|
| Read path | `Cursors`, `MultiCursor`, `Windows`, `Mapper`, `Executor` | the merged cursor is the union of its cursors; the seek cache is invisible exactly for ascending cursors; windows tile the query range exactly when grouped from a positive bound, and then each sample reaches its map function once; the executor sends each tag set once, complete and in order |
| Aggregates | `Sorting`, `Median`, `Aggregates`, `Selectors` | quickselect is the stretch of the sorted data for every pivot; count, sum, mean, spread, median, min, max, first and last do not depend on how samples are spread over shards |
| Query language | `Ast`, `Lexer`, `Parser`, `ParserImp`, `Reduce`, `TimeRange`, `Meaning` | the in-place parser builds the unique bound tree; printing and parsing is the identity exactly on trees whose leaves can be written down, and otherwise rounds numbers and drops units, with those leaves known from their text; folding preserves meaning and normal form, with the exact exceptions; the time range holds exactly the times that meet every bound of a condition, `now() - 1h` and its like included |
| Tag index | `SeriesIDs`, `TagIndex`, `DatabaseIndex`, `WhereWalk` | the index equals one rebuilt from the live series in every run; the WHERE walker selects what the condition means |
| Cluster metadata | `TimeGrid`, `ClusterData`, `ClusterEffects`, `ClusterRuns`, `ClusterTime`, `MetaStore` | each command changes just what it names; in every run of commands ids, ownership and order are sound, ids are never reused, group spans nest, and the live groups of a policy are disjoint while its groups do not become longer |
| Write path | `Routing`, `WriteShard` | points are routed without loss into groups that contain them, with the exact condition; at each level, success means the owners it asks for stored the write, in every interleaving |
| Codecs | `FieldCodec`, `SeriesKey` | field encoding and series keys are read back, with the exact conditions; schema growth keeps old bytes readable |
| Snapshots | `Snapshot` | the multi-reader yields exactly the merged manifest |

`Values`, `Strings` and `Sequences` hold what several parts share.

Code that updates state in place is modelled by classes and loops (`ParserImp`,
`MultiCursor`, `TagIndex`, `MetaStore`, `Mapper`, `Executor`, `Snapshot` and others),
each method proved against a function or predicate on values; the lemmas are about
those. Iteration over a Go map is a loop that takes any remaining key. Where a Go panic
is modelled it is a result of its own.

Conventions: times are integer nanoseconds, since the zero time in the query language
and the metadata and since 1970 in the cursors; float64 is `real`, or its 64-bit
pattern in the field codec; integers are unbounded except where a width is written out
(8-bit field ids, 16-bit string lengths, two's complement).

Parameters stand for what the code gets from outside: the clock (never the zero time),
the position in the raft log and the random cluster id, the calendar, regular-expression
matching, unescaping of measurement names in the index, the hash of a point, and the
order in which answers, timeouts and closes arrive.

Where the code and its own documentation disagree, the model follows the code:

- The comment on the cached seek of a tags cursor says that a seek between the cached
  seek and its result would return the same entry. That holds for ascending cursors
  only (`Cursors.CacheIndistinguishable`).

Promises that hold only under a condition have a lemma with the exact condition:
`Cursors.CacheIndistinguishable`, `Windows.WindowsExact`, `Parser.RoundTripExact`,
`Reduce.ReducedRoundTrip`, `Reduce.FoldTruthExact`, `TimeRange.RangeExact`,
`Meaning.IntFieldExact`, `Lexer.WritableIsScanned`, `ClusterTime.CreationClearExact`,
`Routing.RoutedExact`, `FieldCodec.RoundTripExact`, `FieldCodec.IdsDistinctExact`,
`SeriesKey.ScanExact`, `SeriesKey.NameExact` and `SeriesKey.TagsExact`. A condition
that is only about a time in another spelling, such as `TIME`, reads every series
(`WhereWalk.OnlyTimeReadsAll`). An inequality on a tag key that no series has selects nothing
(`WhereWalk.AbsentKey`). OFFSET without LIMIT reads nothing (`Windows.OffsetAlone`). A
condition with OR is narrowed by its time bounds as if it were AND
(`TimeRange.OneOfTwoIsLost`), and an OR which one side alone selects passes every point
of the series (`WhereWalk.LooseOr`), as the table above `mergeSeriesFilters` says.

## Model

| member | source | states |
|---|---|---|
| Cursors.EngineCursor.SeekTo | src/influxdb/influxdb/tsdb/cursor.go:15-20 | a seek returns the first entry at or past the key in the cursor's direction and leaves the rest to be read |
| Cursors.EngineCursor.Next | src/influxdb/influxdb/tsdb/cursor.go:15-20 | reads the next entry, and EOF for ever after the last |
| Cursors.FromSeekExact | src/influxdb/influxdb/tsdb/cursor.go:15-20 | what a seek leaves to be read is exactly the entries at or past the key |
| Cursors.TagsCursor.SeekTo | src/influxdb/influxdb/tsdb/cursor.go:373-390 | the cached seek, as a step on the cursor and the cache |
| Cursors.TagsCursor.Next | src/influxdb/influxdb/tsdb/cursor.go:393-400 | a read drops the cache and reads on |
| Cursors.HitIsExact | src/influxdb/influxdb/tsdb/cursor.go:374-381 | a seek answered from the cache would have found the same entries |
| Cursors.AscendingRunsAgree | src/influxdb/influxdb/tsdb/cursor.go:373-400 | under any sequence of seeks and reads an ascending cached cursor returns what the bare cursor returns |
| Cursors.DescendingRunsDiffer | src/influxdb/influxdb/tsdb/cursor.go:373-400 | for every non-empty descending cursor there is a sequence of seeks that tells the cache from the bare cursor |
| Cursors.CacheIndistinguishable | src/influxdb/influxdb/tsdb/cursor.go:373-400 | the cache is indistinguishable from the bare cursor if and only if the cursor ascends or is empty |
| MultiCursor.HeapPop | src/influxdb/influxdb/tsdb/cursor.go:111-139 | `heap.Pop` takes out an item that no other is less than, by key and then by priority |
| MultiCursor.MultiCursor.FillHeap | src/influxdb/influxdb/tsdb/cursor.go:42-58 | a seek puts on the heap one item for each cursor that has something at or past the key |
| MultiCursor.MultiCursor.PopItem | src/influxdb/influxdb/tsdb/cursor.go:90-99 | takes the least item, reads on in its cursor, and puts the next entry back |
| MultiCursor.MultiCursor.Pop | src/influxdb/influxdb/tsdb/cursor.go:76-109 | each read returns the head of the merge still to come and leaves its tail; EOF for ever after |
| MultiCursor.MultiCursor.SeekTo | src/influxdb/influxdb/tsdb/cursor.go:41-65 | a seek returns the head of the merge of everything at or past the key and leaves its tail |
| MultiCursor.PopDuplicate | src/influxdb/influxdb/tsdb/cursor.go:90-104 | dropping another entry with the key just returned changes nothing that is to come |
| MultiCursor.PopFresh | src/influxdb/influxdb/tsdb/cursor.go:90-107 | an entry with a new key is the head of what was to come |
| MultiCursor.MergeExact | src/influxdb/influxdb/tsdb/cursor.go:80-109 | the merge is strictly monotone, has every key of the runs once, and takes its value from the first listed run that holds the key |
| MultiCursor.MergeUnique | src/influxdb/influxdb/tsdb/cursor.go:80-109 | those three promises determine the merge |
| MultiCursor.MergeIsUnion | src/influxdb/influxdb/tsdb/cursor.go:22-31 | merging what lies past the seek is the union of all entries from the seek on, by first holder |
| MultiCursor.Drain | src/influxdb/influxdb/tsdb/cursor.go:41-109 | a seek followed by reads until EOF returns exactly the union of all keys at or past the seek, each once and in order, with the first holder's value |
| Ast.BoundUnique | src/influxdb/influxdb/influxql/token.go:274-288 | at most one tree has a given in-order reading with left children binding at least as tightly and right children tighter |
| Ast.SplitsAtLoosest | src/influxdb/influxdb/influxql/token.go:274-288 | a bound tree is split at the last of its loosest operators, from OR over AND, the comparisons, + and -, to * and / |
| Ast.InsertReads | src/influxdb/influxdb/influxql/parser.go:2150-2162 | inserting into the right spine appends operator and operand to the reading and keeps the tree bound |
| Ast.BuildExact | src/influxdb/influxdb/influxql/parser.go:2110-2164 | right-spine insertion builds the unique bound tree that reads as the input |
| Ast.Rebuild | src/influxdb/influxdb/influxql/parser.go:2110-2164 | a bound tree is rebuilt from its own operands and operators |
| Ast.InsertNormal | src/influxdb/influxdb/influxql/parser.go:2131-2162 | insertion keeps the normal form, regex operands and nested calls included |
| Parser.ParseExprGood | src/influxdb/influxdb/influxql/parser.go:2110-2325 | whatever tokens are parsed, the tree is in normal form without nil and date-like strings, nothing that does not scan was consumed, and exact tokens give exact leaves |
| Parser.ParsedIsBuilt | src/influxdb/influxdb/influxql/parser.go:2110-2164 | a parsed expression is its first operand with the operator-operand pairs inserted in order |
| Parser.ParsesByClass | src/influxdb/influxdb/influxql/token.go:274-288 | of three operands the middle one belongs to the operator of the tighter class, of those five, and of two of one class to the first |
| Parser.RegexOperand | src/influxdb/influxdb/influxql/parser.go:2131-2148 | after `=~` and `!~` a regex is taken and nothing else; after other operators whatever an operand can be |
| Parser.ParsePrint | src/influxdb/influxdb/influxql/ast.go:2486-2691 | parsing the printed form of a normal tree whose leaves can all be written down, with anything that stops an expression after it, gives the tree and the rest |
| Parser.RoundTrip | src/influxdb/influxdb/influxql/ast.go:2486-2691 | of a tree the parser built, printing and parsing gives it back if and only if its leaves are such; nil and date-like strings do not occur in it |
| Parser.PrintedMeans | src/influxdb/influxdb/influxql/ast.go:2576-2631 | of a normal tree whose text scans, printing and parsing gives the same tree with every number rounded and every duration not in whole milliseconds a bare number of microseconds |
| Parser.NumberIsRounded | src/influxdb/influxdb/influxql/ast.go:2576 | every number that is not one of thousandths is parsed, printed, and comes back rounded |
| Parser.DurationLosesUnit | src/influxdb/influxdb/influxql/parser.go:2408-2425 | every duration that is not one of whole milliseconds is parsed, printed, and comes back as a number |
| Parser.LostLeaves | src/influxdb/influxdb/influxql/parser.go:2408-2425 | `x > 0.0001` comes back as `x > 0`, and `x > 1500u` as `x > 1500` |
| Parser.RoundTripExact | src/influxdb/influxdb/influxql/ast.go:2486-2691 | a normal tree survives printing and parsing if and only if every leaf can be written down: numbers in thousandths, durations in whole milliseconds, years of four digits, no nil and no date-like string, names that scan, a regex only after a regex operator |
| Ast.Round3Exact | src/influxdb/influxdb/influxql/ast.go:2576 | rounding to three decimals keeps a number if and only if it is one of thousandths, and always gives one |
| Ast.Round3Nearest | src/influxdb/influxdb/influxql/ast.go:2576 | no thousandth is nearer to the number than the one printed, and of two as near the even one is taken |
| Ast.MicrosExact | src/influxdb/influxdb/influxql/parser.go:2424 | a duration without a unit is its whole microseconds, cut off toward zero |
| Ast.LowerExact | src/influxdb/influxdb/influxql/parser.go:2295 | names of calls have the letters A to Z made small and nothing else changed |
| Parser.PrintExact | src/influxdb/influxdb/influxql/ast.go:2576-2631 | the printer writes only numbers in thousandths and durations in whole milliseconds |
| Parser.ScannedIsWritable | src/influxdb/influxdb/influxql/ast.go:2486-2691 | if the printed text scans throughout as what it was printed from, every name, string, time and regex can be written down |
| Lexer.ScanString | src/influxdb/influxdb/influxql/scanner.go:496-528 | the scanning loop of strings agrees with reading character by character |
| Lexer.ScanRegex | src/influxdb/influxdb/influxql/scanner.go:447-493 | the scanning loop of regexes agrees with reading character by character, with only the slash to be escaped |
| Lexer.QuotedReads | src/influxdb/influxdb/influxql/parser.go:2438-2466 | a quoted string or name, whatever follows it, scans as itself if and only if it has no carriage return and no NUL |
| Lexer.RegexReads | src/influxdb/influxdb/influxql/ast.go:2666-2671 | a written regex scans as itself if and only if it has no line end and no NUL and does not end in a backslash |
| Lexer.NameReads | src/influxdb/influxdb/influxql/parser.go:2443-2483 | a written name scans as itself if and only if it is clean and not empty, with quotes just where it needs them |
| Lexer.BareReadsExact | src/influxdb/influxdb/influxql/scanner.go:129-160 | a name written without quotes scans as itself if and only if it is one of letters, digits and underscores that starts with no digit and is no keyword |
| Lexer.IdentCharsExact | src/influxdb/influxdb/influxql/scanner.go:291-300 | the characters of names are the letters, the digits and the underscore, and no name starts with a digit |
| Lexer.CallNameReads | src/influxdb/influxdb/influxql/ast.go:2497-2506 | the name of a call scans as itself, or as the keyword `distinct`, if and only if it can be written down |
| Lexer.WritableIsScanned | src/influxdb/influxdb/influxql/ast.go:2486-2671 | the names, strings, regexes and DISTINCT fields that `Parser.RoundTripExact` lets through are exactly those whose text scans as themselves |
| Lexer.DurationReads | src/influxdb/influxdb/influxql/parser.go:2408-2425 | a duration is written with a unit of which it is a whole number if and only if it is one of whole milliseconds |
| Lexer.DateExact | src/influxdb/influxdb/influxql/parser.go:2493-2500 | a string is taken for a date if and only if it starts with the ten characters of one and then ends or goes on with no new line |
| Lexer.FourDigitYearExact | src/influxdb/influxdb/influxql/ast.go:2621-2623 | the times with a year of four digits are those of the years 0 to 9999 of the Gregorian calendar |
| ParserImp.Descend | src/influxdb/influxdb/influxql/parser.go:2150-2162 | the descent stops at the last spine node before an operator that binds at least as tightly |
| ParserImp.InsertInPlace | src/influxdb/influxdb/influxql/parser.go:2150-2162 | the in-place rewriting of the right spine is insertion into the tree it stands for |
| ParserImp.TokenParser.ParseExpr | src/influxdb/influxdb/influxql/parser.go:2110-2164 | the operator loop over the token position agrees with the grammar, in result and in tokens left |
| ParserImp.TokenParser.ParseRhs | src/influxdb/influxdb/influxql/parser.go:2131-2148 | after a regex operator only a regex is accepted |
| ParserImp.TokenParser.ParseUnaryExpr | src/influxdb/influxdb/influxql/parser.go:2167-2257 | operands: parens, calls, names, literals and dates |
| ParserImp.TokenParser.ParseArgs | src/influxdb/influxdb/influxql/parser.go:2302-2317 | the argument loop agrees with the grammar |
| ParserImp.TokenParser.ParseCall | src/influxdb/influxdb/influxql/parser.go:2294-2325 | a call agrees with the grammar, with its name in lower case |
| Reduce.FoldKeepsValue | src/influxdb/influxdb/influxql/ast.go:3187-3235 | one fold keeps the value of an operation without times, durations and nil, under the same conditions; division by zero included |
| Reduce.RedKeepsValue | src/influxdb/influxdb/influxql/ast.go:3168-3185 | folding keeps the value of a condition whose AND and OR have boolean operands and which adds no strings, in every environment that agrees with the valuer |
| Reduce.ReduceKeepsMeaning | src/influxdb/influxdb/influxql/ast.go:3158-3166 | for such conditions `EvalBool` of the folded condition equals `EvalBool` of the original |
| Reduce.FoldTruthExact | src/influxdb/influxdb/influxql/ast.go:3187-3390 | for any operands, a fold changes the truth of an operation exactly in the cases named by `FoldChangesTruth` |
| Reduce.FoldNormal | src/influxdb/influxdb/influxql/ast.go:3187-3235 | a fold of normal parts is normal and binds at least as tightly |
| Reduce.FirstRegexStays | src/influxdb/influxdb/influxql/ast.go:3168-3235 | folding leaves the regex in front below a regex operator |
| Reduce.RedNormal | src/influxdb/influxdb/influxql/ast.go:3158-3235 | folding keeps the parser's normal form |
| Reduce.ReducedRoundTrip | src/influxdb/influxdb/influxql/ast.go:3158-3166 | a folded tree is normal, and survives printing and parsing if and only if folding left only leaves that can be written down |
| Reduce.FoldedDateIsLost | src/influxdb/influxdb/influxql/ast.go:3340-3358 | strings that add up to something like a date do not come back, even if each part would |
| Reduce.FoldedIsLost | src/influxdb/influxdb/influxql/ast.go:3187-3235 | any operation on two literals that folds to a literal which cannot be written down does not come back |
| Reduce.DateFromParts | src/influxdb/influxdb/influxql/ast.go:3340-3358 | the strings `2015-` and `01-01` are such parts |
| Reduce.FoldedQuotientIsLost | src/influxdb/influxdb/influxql/ast.go:3306-3338 | a quotient that is not one of thousandths does not come back |
| Reduce.OneThird | src/influxdb/influxdb/influxql/ast.go:3306-3338 | `1 / 3` is such a quotient, of numbers that would come back |
| Reduce.FoldedDifferenceIsLost | src/influxdb/influxdb/influxql/ast.go:3360-3390 | the difference of two times that is not one of whole milliseconds does not come back |
| Reduce.RedIdempotent | src/influxdb/influxdb/influxql/ast.go:3168-3235 | folding without values, done twice, is folding once |
| Meaning.EvalCompares | src/influxdb/influxdb/influxql/ast.go:3062-3145 | evaluation compares numbers by their order, and strings and booleans for equality; an integer is compared with the number cut off to a whole one |
| Meaning.EvalMixed | src/influxdb/influxdb/influxql/ast.go:3062-3145 | an operand on the right of another type counts as zero, the empty string or false; nothing on the left gives nothing |
| Meaning.TruncExact | src/influxdb/influxdb/influxql/ast.go:3110-3111 | a number is cut off to the whole number next to it on the side of zero |
| Meaning.IntFieldExact | src/influxdb/influxdb/influxql/ast.go:3107-3124 | that is how an integer compares with the number itself if and only if the number is whole, the integer is not the one next to it, or the operator does not tell the two apart |
| Meaning.FivePassesFiveAndAHalf | src/influxdb/influxdb/influxql/ast.go:3107-3124 | the filter `i >= 5.5` passes the value 5 |
| Meaning.SumLaws | src/influxdb/influxdb/influxql/ast.go:3306-3338 | folded differences undo folded sums |
| Meaning.ProductLaw | src/influxdb/influxdb/influxql/ast.go:3306-3338 | a folded product is the product |
| Meaning.DivisionLaw | src/influxdb/influxdb/influxql/ast.go:3306-3338 | a folded quotient times the divisor is the number; dividing by zero gives zero |
| Meaning.QuotientExact | src/influxdb/influxdb/influxql/ast.go:3131-3135 | integers are divided toward zero, with a remainder smaller than the divisor and of the sign of the number |
| Meaning.IntLaws | src/influxdb/influxdb/influxql/ast.go:3107-3136 | arithmetic on an integer field, with the number cut off first |
| Meaning.FoldsTime | src/influxdb/influxdb/influxql/ast.go:3256-3390 | folding any sum or difference of times, durations and `now()` gives the time or duration it works out to |
| Meaning.SpanScaled | src/influxdb/influxdb/influxql/ast.go:3277-3286 | a duration multiplied or divided by a number, cut off first; dividing by one that is cut off to zero panics |
| Meaning.TimeCompares | src/influxdb/influxdb/influxql/ast.go:3256-3390 | times and durations are compared by their order |
| Meaning.NilFolds | src/influxdb/influxdb/influxql/ast.go:3237-3390 | folding with nil: equality and inequality are false, and other comparisons just with a literal on the left that is no string |
| SeriesIDs.AscendingUnique | src/influxdb/influxdb/tsdb/meta.go:1317-1347 | an ascending id list is determined by its members |
| SeriesIDs.Intersect | src/influxdb/influxdb/tsdb/meta.go:1319-1347 | the two-index loop computes the specification `Meet` |
| SeriesIDs.MeetExact | src/influxdb/influxdb/tsdb/meta.go:1319-1347 | `Meet` is ascending and has exactly the common ids |
| SeriesIDs.Union | src/influxdb/influxdb/tsdb/meta.go:1351-1378 | the merging loop computes the specification `Join` |
| SeriesIDs.JoinExact | src/influxdb/influxdb/tsdb/meta.go:1351-1378 | `Join` is ascending and has exactly the ids of either list |
| SeriesIDs.Reject | src/influxdb/influxdb/tsdb/meta.go:1382-1406 | the loop computes the specification `Minus` |
| SeriesIDs.MinusExact | src/influxdb/influxdb/tsdb/meta.go:1382-1406 | `Minus` is ascending and has exactly the ids of the first list not in the second |
| SeriesIDs.Filter | src/influxdb/influxdb/tsdb/meta.go:566-572 | the filtering loop computes `Without` |
| SeriesIDs.WithoutExact | src/influxdb/influxdb/tsdb/meta.go:566-572 | `Without` is ascending and has every id but the one |
| TagIndex.AddID | src/influxdb/influxdb/tsdb/meta.go:527-533 | an id is added to an ascending list and the list stays ascending |
| TagIndex.AddTags | src/influxdb/influxdb/tsdb/meta.go:535-551 | the loop over a new series' tags, in any order, adds its id to exactly its posting lists |
| TagIndex.DropTags | src/influxdb/influxdb/tsdb/meta.go:574-598 | the nested loops take an id out of every posting list and drop lists and keys left empty |
| TagIndex.DropKeepsExact | src/influxdb/influxdb/tsdb/meta.go:557-601 | taking a series out keeps every list exact and none empty |
| TagIndex.Measurement.AddSeries | src/influxdb/influxdb/tsdb/meta.go:519-554 | adds a series and keeps the id list and every posting list ascending and exact; false for a known id |
| TagIndex.Measurement.DropSeries | src/influxdb/influxdb/tsdb/meta.go:557-601 | drops a series and keeps every list ascending and exact, with no posting list empty |
| TagIndex.IndexUnique | src/influxdb/influxdb/tsdb/meta.go:519-601 | the live series determine the id list and every posting list |
| TagIndex.Rebuild | src/influxdb/influxdb/tsdb/meta.go:519-554 | an index built anew from the live series, in any order, equals the index |
| DatabaseIndex.DatabaseIndex.CreateMeasurementIndexIfNotExists | src/influxdb/influxdb/tsdb/meta.go:109-117 | finds or makes the measurement under the unescaped name |
| DatabaseIndex.DatabaseIndex.CreateSeriesIndexIfNotExists | src/influxdb/influxdb/tsdb/meta.go:86-106 | a new key gets the next id and is indexed; a known key returns its series; every map stays in step |
| DatabaseIndex.DatabaseIndex.DropSeries | src/influxdb/influxdb/tsdb/meta.go:286-297 | drops the series of the keys from the database map and from the measurements; unknown keys are skipped |
| DatabaseIndex.DatabaseIndex.DropMeasurement | src/influxdb/influxdb/tsdb/meta.go:270-283 | drops the measurement and just its series |
| DatabaseIndex.IdsNeverReused | src/influxdb/influxdb/tsdb/meta.go:86-106 | in every run of creations and drops ids are unique and bounded by the counter, and an id handed out before never belongs to another series |
| DatabaseIndex.ApplyExact | src/influxdb/influxdb/tsdb/meta.go:86-117 | a new key gets the next id, and drops take away just the series they name |
| WhereWalk.RegexIds | src/influxdb/influxdb/tsdb/meta.go:811-831 | the loop over a tag's values, in any order, selects exactly the series with, or without, a matching value |
| WhereWalk.TextIds | src/influxdb/influxdb/tsdb/meta.go:798-809 | the series whose tag has, or has not, the value |
| WhereWalk.TagIds | src/influxdb/influxdb/tsdb/meta.go:793-834 | a comparison on a tag key selects exactly the series whose tags satisfy it, in order |
| WhereWalk.IdsForExpr | src/influxdb/influxdb/tsdb/meta.go:771-834 | the series of one comparison and the filter for their points; an error exactly when neither side is a name |
| WhereWalk.MergeSeriesFilters | src/influxdb/influxdb/tsdb/meta.go:702-767 | each id's merged and folded filter; an id whose filter folds to false is left out |
| WhereWalk.MergedIsFilter | src/influxdb/influxdb/tsdb/meta.go:730-765 | merging two filters of a walk never folds to false, so no series is lost by a merge |
| WhereWalk.MergedMeans | src/influxdb/influxdb/tsdb/meta.go:730-765 | the merged filter of a series passes just the points both sides' filters say |
| WhereWalk.WalkWhere | src/influxdb/influxdb/tsdb/meta.go:859-912 | the walker returns, strictly ascending, exactly the selected series, each with a filter that says which of its points pass; a tag key that no series has selects none |
| WhereWalk.FieldTestQualifies | src/influxdb/influxdb/tsdb/meta.go:787-791 | comparing a field with a number is one of the conditions described, and a point carries the field if its value is a number |
| WhereWalk.TimeSelectsAll | src/influxdb/influxdb/tsdb/meta.go:782-785 | a comparison of `time`, or of anything with a time literal, selects every series and passes every point |
| WhereWalk.TagSelects | src/influxdb/influxdb/tsdb/meta.go:793-832 | what `=`, `!=`, `=~` and `!~` on a tag key select: the series with or without such a value, if any series has the key |
| WhereWalk.NothingLost | src/influxdb/influxdb/tsdb/meta.go:859-912 | every point that satisfies the condition is of a selected series and passes its filter, unless an inequality on a tag key that no series has is true of the series |
| WhereWalk.AbsentKey | src/influxdb/influxdb/tsdb/meta.go:793-796 | an inequality on a tag key that no series has selects no series, though it is true of all of them; an equality is true of none |
| WhereWalk.TagsOnlyExact | src/influxdb/influxdb/tsdb/meta.go:859-912 | without field comparisons only series whose tags satisfy the condition are selected, and, unless such an inequality is true of them, all of those |
| WhereWalk.NothingExtra | src/influxdb/influxdb/tsdb/meta.go:859-912 | for a series that no OR selects by one side alone, only points that satisfy the condition pass |
| WhereWalk.LooseOr | src/influxdb/influxdb/tsdb/meta.go:889-899 | an OR that one side alone selects passes every point of the series, whether that side holds or not |
| WhereWalk.FiltersFor | src/influxdb/influxdb/tsdb/meta.go:605-628 | of every condition with the time spelled `time`, a point that carries the compared fields is read exactly if its series is selected and it passes; it is read if it satisfies the condition, and only then when no field is compared or no OR selects its series by one side alone, but for inequalities on absent tag keys |
| WhereWalk.OnlyTimeExact | src/influxdb/influxdb/influxql/ast.go:2751-2770 | a condition is only about time exactly if every part that AND, OR and parens join compares, on its left, a name that is `time` in any case of letters |
| WhereWalk.OnlyTimeReadsAll | src/influxdb/influxdb/tsdb/meta.go:605-612 | reading every series of such a condition does what walking it would do, if the time is spelled `time`; of a measurement without a field or tag key of that name, exactly if what the walker takes for bounds on time makes the condition true |
| WhereWalk.SpelledSo | src/influxdb/influxdb/tsdb/meta.go:783 | a condition counts as spelled so if every name that is `time` in some case of letters is `time` itself |
| WhereWalk.UnwrapTrue | src/influxdb/influxdb/tsdb/meta.go:618-627 | a series without a filter or with a literal true is read unfiltered |
| WhereWalk.ReadIsHolds | src/influxdb/influxdb/tsdb/meta.go:605-628 | the same of any answer of the walker, series by series |
| Median.Partition | src/influxdb/influxdb/tsdb/functions.go:592-617 | in place, the stretch becomes pivot, lows and highs; nothing is lost and nothing outside changes |
| Median.DiscardLowerRange | src/influxdb/influxdb/tsdb/functions.go:517-550 | drops just the k least elements, for every pivot choice |
| Median.DiscardUpperRange | src/influxdb/influxdb/tsdb/functions.go:555-588 | drops just the k greatest elements, for every pivot choice |
| Median.UpperIsSuffix | src/influxdb/influxdb/tsdb/functions.go:517-550 | what is left, sorted, is the sorted data without its first k |
| Median.LowerIsPrefix | src/influxdb/influxdb/tsdb/functions.go:555-588 | what is left, sorted, is the sorted data without its last k |
| Median.GetSortedRange | src/influxdb/influxdb/tsdb/functions.go:503-512 | the range equals that stretch of the fully sorted data |
| Median.ReduceMedian | src/influxdb/influxdb/tsdb/functions.go:466-492 | the textbook median of everything the mappers sent, none without data |
| Median.MedianIgnoresSharding | src/influxdb/influxdb/tsdb/functions.go:466-492 | the median does not depend on how the samples are spread or ordered |
| Median.MedianSplitsData | src/influxdb/influxdb/tsdb/functions.go:466-492 | half of the sorted samples are no greater than the median and half are no less |
| Median.MedianBetween | src/influxdb/influxdb/tsdb/functions.go:466-492 | of an odd number of samples the median is the middle one, of an even number it lies halfway between the two in the middle |
| TimeGrid.ShardGroupDuration | src/influxdb/influxdb/meta/data.go:971-978 | every policy has groups of one of the three grid lengths: an hour, a day or a week |
| Routing.OverlapsExact | src/influxdb/influxdb/meta/data.go:1005-1007 | a group overlaps a range exactly if it contains one of its times |
| TimeGrid.CellOf | src/influxdb/influxdb/meta/data.go:391-392 | truncating a time gives the grid cell that contains it |
| TimeGrid.CellsNest | src/influxdb/influxdb/meta/data.go:971-978 | any two cells of the hour, day and week grids are disjoint or nested |
| ClusterData.GroupByTimestamp | src/influxdb/influxdb/meta/data.go:884-891 | lookup returns the first live group that contains the time, or none |
| MetaStore.Data.CreateNode | src/influxdb/influxdb/meta/data.go:60-74 | a new host gets the next node id; a known host is an error |
| ClusterEffects.NodeCreated | src/influxdb/influxdb/meta/data.go:60-74 | a node under the next id for a new host, and nothing else changed; refused exactly if the host is known |
| ClusterEffects.NodeMoved | src/influxdb/influxdb/meta/store.go:1896-1911 | the node of the id has the new host, and nothing else changed |
| ClusterEffects.NodeDeleted | src/influxdb/influxdb/meta/data.go:77-142 | the node is gone, every shard has just lost it as an owner, and nothing else changed; refused for no id, an unknown one, the last node and, unless forced, exactly if a shard of a policy with at most one replica has no other owner |
| ClusterEffects.DatabaseCreated | src/influxdb/influxdb/meta/data.go:156-167 | an empty database under a new name, and nothing else changed |
| ClusterEffects.DatabaseDropped | src/influxdb/influxdb/meta/data.go:170-178 | the database is gone, and nothing else changed |
| ClusterEffects.PolicyCreated | src/influxdb/influxdb/meta/data.go:197-222 | a policy without groups, whose groups last a week, a day or an hour by its duration, and nothing else changed; with the exact refusals |
| ClusterEffects.PolicyDropped | src/influxdb/influxdb/meta/data.go:225-245 | the policy is gone, and nothing else changed; the default is refused |
| ClusterEffects.PolicyUpdated | src/influxdb/influxdb/meta/data.go:248-284 | the policy has what the update names and is found under its new name, its groups are as they were, and nothing else changed; with the exact refusals |
| ClusterEffects.DefaultSet | src/influxdb/influxdb/meta/data.go:287-300 | the database has that default, and nothing else changed |
| ClusterEffects.GroupCreated | src/influxdb/influxdb/meta/data.go:355-420 | one more group, the grid cell of the time, with as many shards as the nodes allow and owners dealt round the nodes from the log index on; nothing else changed; with the exact refusals |
| ClusterEffects.GroupDeleted | src/influxdb/influxdb/meta/data.go:423-441 | the group of the id is marked deleted at that time, all other groups, policies and databases are as they were; with the exact refusals |
| ClusterEffects.OnlyOneMarked | src/influxdb/influxdb/meta/data.go:431-437 | in every sound state the group marked is the only one of its id |
| ClusterEffects.RunNamesUnique | src/influxdb/influxdb/meta/data.go:156-284 | in every run no two databases have one name, and no two policies of a database |
| MetaStore.Data.DeleteNode | src/influxdb/influxdb/meta/data.go:77-142 | the four refusals in order, and otherwise the node gone from the node list and from every owner list |
| MetaStore.IsUnreplicated | src/influxdb/influxdb/meta/data.go:93-110 | the nested search finds whether a shard of an unreplicated policy would lose its only copy |
| MetaStore.RemoveFromDatabases | src/influxdb/influxdb/meta/data.go:112-129 | the nested loops take the node out of every shard's owners and change nothing else |
| MetaStore.Data.CreateDatabase | src/influxdb/influxdb/meta/data.go:156-167 | adds an empty database; a blank or known name is an error |
| MetaStore.Data.DropDatabase | src/influxdb/influxdb/meta/data.go:170-178 | removes the first database of the name |
| MetaStore.Data.CreateRetentionPolicy | src/influxdb/influxdb/meta/data.go:197-222 | adds a policy with the group duration of its duration; the four refusals in order |
| MetaStore.Data.DropRetentionPolicy | src/influxdb/influxdb/meta/data.go:225-245 | removes a policy that is not the default |
| MetaStore.Data.UpdateRetentionPolicy | src/influxdb/influxdb/meta/data.go:248-284 | renames, changes the duration with its group duration, or the replication; the four refusals in order |
| MetaStore.Data.SetDefaultRetentionPolicy | src/influxdb/influxdb/meta/data.go:287-300 | sets the default to an existing policy |
| MetaStore.Data.DeleteShardGroup | src/influxdb/influxdb/meta/data.go:423-441 | marks the group deleted |
| MetaStore.AssignNodes | src/influxdb/influxdb/meta/data.go:401-411 | nodes are dealt to the shards round robin from the position the log index gives |
| MetaStore.Data.MakeGroup | src/influxdb/influxdb/meta/data.go:374-411 | the new group: ids, span, shard count and owners |
| MetaStore.Data.CreateShardGroup | src/influxdb/influxdb/meta/data.go:355-420 | adds the group, counts its ids and keeps the list sorted; the four refusals in order |
| MetaStore.Store.Apply | src/influxdb/influxdb/meta/store.go:1780-1848 | a command is applied to a copy that replaces the metadata only on success; term and index are set either way; the invariant is kept |
| MetaStore.Store.ExecuteCreateNode | src/influxdb/influxdb/meta/store.go:1877-1894 | the first node command also sets the cluster id |
| MetaStore.Store.ExecuteUpdateNode | src/influxdb/influxdb/meta/store.go:1896-1911 | changes a node's host and nothing else |
| MetaStore.Store.CreateShardGroupIfNotExists | src/influxdb/influxdb/meta/store.go:1215-1229 | the group that serves the time, made if there is none; it fails exactly without the policy, or without nodes when there is no such group; without nodes no database changes |
| ClusterRuns.NewGroupSound | src/influxdb/influxdb/meta/data.go:374-411 | a new group has nodes/replicas shards of so many live owners each, and no node is listed twice in the group |
| ClusterRuns.AddGroupKept | src/influxdb/influxdb/meta/data.go:355-420 | creating a group keeps the whole invariant, whatever order the sort leaves equal start times in |
| ClusterRuns.RemoveNodeKept | src/influxdb/influxdb/meta/data.go:77-142 | deleting a node keeps the whole invariant: all owners are still live nodes |
| ClusterRuns.ChangePolicyKept | src/influxdb/influxdb/meta/data.go:248-284 | updating a policy keeps the whole invariant |
| ClusterRuns.RemoveGroupKept | src/influxdb/influxdb/meta/data.go:423-441 | marking a group deleted keeps the whole invariant |
| ClusterRuns.StepKept | src/influxdb/influxdb/meta/store.go:1780-1848 | every command keeps the invariant, and only hands out ids above the counters |
| ClusterRuns.RunSound | src/influxdb/influxdb/meta/store.go:1780-1848 | in every state of every run: node, group and shard ids are unique and bounded by their counters, owners are live nodes, no node is listed twice in a group, groups are sorted by start |
| ClusterRuns.NeverReused | src/influxdb/influxdb/meta/store.go:1780-1848 | in every run, a node, group or shard id that goes out of use never comes back |
| ClusterTime.GroupsNest | src/influxdb/influxdb/meta/data.go:355-420 | in every run, the spans of any two groups of one policy are disjoint or nested, whatever updates change the duration |
| ClusterTime.CreationClearExact | src/influxdb/influxdb/meta/data.go:369-417 | creating a group keeps the live groups disjoint if and only if no live group lies inside the new span |
| ClusterTime.GrowthOverlaps | src/influxdb/influxdb/meta/data.go:248-284 | a run of six commands from the empty metadata that leaves an hour group and a day group around it live in one policy |
| ClusterTime.StepHeirs | src/influxdb/influxdb/meta/store.go:1780-1848 | after any command every policy is new, or descends from the one that was at the place the command moved it from; its groups are longer only if the command is an update that made them so |
| ClusterTime.PolicyTidy | src/influxdb/influxdb/meta/data.go:355-420 | in every run, the live groups of a policy whose own groups have never become longer are pairwise disjoint, and none is shorter than the groups to come |
| ClusterTime.RunTidy | src/influxdb/influxdb/meta/store.go:1780-1848 | in every run without an update that makes a policy's groups longer, that holds of every policy of every state |
| ClusterTime.CreationServes | src/influxdb/influxdb/meta/data.go:355-420 | a successful creation leaves exactly one live group that contains the time, the new one, and lookup returns it |
| TimeRange.RangeFinder.Walk | src/influxdb/influxdb/influxql/ast.go:2774-2825 | the walk updates the bounds as the specification says, a node before its children |
| TimeRange.RangeFinder.VisitNode | src/influxdb/influxdb/influxql/ast.go:2775-2823 | one comparison with the time narrows the bounds |
| TimeRange.RangeContains | src/influxdb/influxdb/influxql/ast.go:2774-2825 | every time that satisfies a condition of comparisons, and of anything silent about the time, joined by AND lies within the range |
| TimeRange.RangeExact | src/influxdb/influxdb/influxql/ast.go:2774-2825 | of any condition, whatever joins its comparisons, a time that is not at a strict bound lies within the range if and only if it meets every bound in it |
| TimeRange.RangeNearly | src/influxdb/influxdb/influxql/ast.go:2774-2825 | of any condition and any time: a time that meets every bound is in the range, and one in the range meets every bound or is exactly at a strict one, unless a bound lies next to the zero time |
| Meaning.TimeMeans | src/influxdb/influxdb/influxql/ast.go:2774-2793 | a comparison with the time, either way round, is one of the point's time with the instant the literal stands for; numbers and durations count from 1970 |
| Meaning.FoldedRange | src/influxdb/influxdb/influxql/ast.go:2774-2825 | the range of a folded `time op x`, such as `time > now() - 1h`, has exactly the times that stand so to the instant x works out to |
| TimeRange.SilentAlternativeIsLost | src/influxdb/influxdb/influxql/ast.go:2774-2825 | of a bound or something silent about the time, exactly the times that do not meet the bound while the other holds are lost |
| TimeRange.OneOfTwoIsLost | src/influxdb/influxdb/influxql/ast.go:2774-2825 | of a bound or another, exactly the times that meet one of them but not both are lost |
| Routing.ShardMapping.MapPoint | src/influxdb/influxdb/cluster/points_writer.go:145-153 | appends the point under its shard's id |
| Routing.GridTimes | src/influxdb/influxdb/cluster/points_writer.go:198-200 | the grid times of the points |
| Routing.FillGroups | src/influxdb/influxdb/cluster/points_writer.go:203-209 | every grid time gets the group that serves it, found or made, in any order; it fails exactly without nodes for a time that has no group, and then has made none |
| Routing.MapPoints | src/influxdb/influxdb/cluster/points_writer.go:211-216 | each shard gets just its points, in order |
| Routing.MapShards | src/influxdb/influxdb/cluster/points_writer.go:185-218 | fails exactly without the policy, or without nodes for a point that has no group yet, and then leaves every database as it was; otherwise every point is mapped, from non-empty shard lists, under groups that served its grid time before or are its new cell |
| Routing.PickedCount | src/influxdb/influxdb/cluster/points_writer.go:211-216 | no point is lost or duplicated: each is in its own shard as often as in the request, and in no other |
| Routing.PickedExact | src/influxdb/influxdb/cluster/points_writer.go:211-216 | a point is in the list of a shard exactly if that is the shard of its group at the position of its hash modulo their number |
| Routing.RoutedWell | src/influxdb/influxdb/cluster/points_writer.go:185-218 | when no live group is shorter than the policy's groups are now, every point goes to a live group that contains its time |
| Routing.RoutedByAll | src/influxdb/influxdb/cluster/points_writer.go:185-218 | for any live groups, overlapping or not: a point goes to a group that contains its time if every live group that serves its grid time does, and does not if some serve it but none reaches the point |
| Routing.RoutedExact | src/influxdb/influxdb/cluster/points_writer.go:185-218 | with disjoint live groups, a point goes to a group that contains its time if and only if no live group serves its grid time without reaching it |
| Routing.ShortGroupTakesLaterPoints | src/influxdb/influxdb/cluster/points_writer.go:185-218 | an hour group that a run of commands left in a policy of day groups takes points of later hours |
| Routing.ShardGroupsByTimeRange | src/influxdb/influxdb/meta/data.go:331-338 | exactly the live groups that overlap the range, still sorted by start |
| Routing.PlanShards | src/influxdb/influxdb/tsdb/query_executor.go:253-276 | the planned shard ids, ascending: exactly those of live groups of the sources that overlap the range |
| Routing.PlanCovers | src/influxdb/influxdb/tsdb/query_executor.go:240-251 | a time that satisfies an AND-only condition, from 1970 until now, lies in the planned range |
| Routing.PlanExact | src/influxdb/influxdb/influxql/ast.go:2830-2843 | a time is planned for exactly if it is in the range of the condition, from 1970 if there is no lower bound and up to now if there is no upper |
| Routing.WrittenIsPlanned | src/influxdb/influxdb/tsdb/query_executor.go:253-276 | when no live group is shorter than the policy's groups are now, any planned range that contains a point's time has the shard the point was written to |
| Windows.TilesReadOnce | src/influxdb/influxdb/tsdb/aggregate.go:751-759 | a time lies in exactly one of the tiles if it is in the range, and in none otherwise |
| Windows.WindowsTile | src/influxdb/influxdb/tsdb/aggregate.go:560-592 | in just those queries the clamped windows follow one another from lower to upper bound |
| Windows.WindowsExact | src/influxdb/influxdb/tsdb/aggregate.go:560-592 | without LIMIT and OFFSET, the windows read exactly the query range if and only if the query is grouped by time from a positive lower bound, or asks for one instant not before 1970 |
| Windows.OffsetAlone | src/influxdb/influxdb/tsdb/aggregate.go:570-581 | OFFSET without LIMIT leaves no window at all |
| Windows.LimitTakesSlice | src/influxdb/influxdb/tsdb/aggregate.go:560-592 | a query grouped from a positive lower bound that keeps more than one interval reads the windows from the offset on, as many as the limit, of a grid that tiles the range |
| Windows.LimitOneExact | src/influxdb/influxdb/tsdb/aggregate.go:588-592 | from a positive lower bound, LIMIT 1 of more than one interval reads the window of the interval at the offset if and only if the lower bound is on the grid; its window is that of the lower bound moved by the offset, or none when that is past the upper bound |
| Windows.OpenExact | src/influxdb/influxdb/tsdb/aggregate.go:560-592 | an offset past the last interval leaves nothing to read, more than 100,000 intervals are refused, and the intervals counted are those from the lower bound's to the upper bound's |
| Mapper.TakeItem | src/influxdb/influxdb/tsdb/aggregate.go:808-846 | the sample of one entry, if it has one |
| Mapper.ItemIsSample | src/influxdb/influxdb/tsdb/aggregate.go:808-846 | an entry gives one sample exactly if it has a value that is not nil of the field and the filter is absent or true of its fields |
| Mapper.ReadMapItems | src/influxdb/influxdb/tsdb/aggregate.go:790-848 | reads the entries of the window through the caching cursor |
| Mapper.WindowExact | src/influxdb/influxdb/tsdb/aggregate.go:790-848 | what a window reads are exactly the samples of the field from its start up to its end that pass the filter, each once and in time order |
| Mapper.AggregateMapper.NextInterval | src/influxdb/influxdb/tsdb/aggregate.go:852-863 | the start of the next interval, or -1 after the last |
| Mapper.AggregateMapper.NextChunk | src/influxdb/influxdb/tsdb/aggregate.go:723-788 | hands out, one by one, the chunks of every tag set and window |
| Mapper.EachSampleOnce | src/influxdb/influxdb/tsdb/aggregate.go:723-848 | over all windows of a query exactly the samples of the field in the query range that pass the filter are read, each once and in time order |
| Mapper.EachSampleMapped | src/influxdb/influxdb/tsdb/aggregate.go:723-788 | over the chunks of a tag set each map function is given, for each cursor, exactly those samples of its field, each once |
| Mapper.ChunkExact | src/influxdb/influxdb/tsdb/aggregate.go:723-788 | a chunk is of one interval, at the time where it starts, with the samples of its clamped window for every cursor and field |
| Executor.StatefulMapper.Pull | src/influxdb/influxdb/tsdb/aggregate.go:277-299 | takes every chunk up to the first of another tag set and loses none |
| Executor.InitMappers | src/influxdb/influxdb/tsdb/aggregate.go:201-214 | buffers the first chunk of every mapper |
| Executor.MappersDrained | src/influxdb/influxdb/tsdb/aggregate.go:239-246 | true exactly when no mapper has anything pending |
| Executor.NextMapperTagSet | src/influxdb/influxdb/tsdb/aggregate.go:249-261 | the lowest tag set pending in any mapper |
| Executor.ReadNextTagset | src/influxdb/influxdb/tsdb/aggregate.go:264-303 | takes the leading chunks of the tag set from every mapper |
| Executor.RoundKeeps | src/influxdb/influxdb/tsdb/aggregate.go:86-91 | a round sends a non-empty group with all chunks of its tag set from all mappers and leaves only later tag sets |
| Executor.Execute | src/influxdb/influxdb/tsdb/aggregate.go:86-91 | the loop ends; the groups are strictly ascending, each with all chunks of its tag set, and every tag set is sent |
| Executor.MapperOrdered | src/influxdb/influxdb/tsdb/aggregate.go:666 | a mapper whose cursor sets are sorted by non-empty key emits its chunks in order |
| Strings.LessExact | src/influxdb/influxdb/tsdb/aggregate.go:873-877 | strings are ordered by where they first differ |
| WriteShard.Collect | src/influxdb/influxdb/cluster/points_writer.go:350-394 | the waiting loop computes the verdict of the arrivals in their order |
| WriteShard.CollectByLevel | src/influxdb/influxdb/cluster/points_writer.go:294-301 | when every owner answers: success at All exactly if all succeed, at Quorum if more than half, at One and Any if one does; failure exactly if none |
| WriteShard.SettlesAt | src/influxdb/influxdb/cluster/points_writer.go:350-394 | for any arrivals: a close, a timeout, the last success needed or the last answer ends the wait, and says what is returned |
| WriteShard.SettlesSomewhere | src/influxdb/influxdb/cluster/points_writer.go:350-394 | one of these always comes up |
| WriteShard.FirstErrorFails | src/influxdb/influxdb/cluster/points_writer.go:363-372 | when every owner answers with an error, the write fails with the error of the first |
| WriteShard.ClassByCount | src/influxdb/influxdb/cluster/points_writer.go:350-394 | when all owners answer in time, the class is decided by the number of successes |
| WriteShard.OrderDoesNotMatter | src/influxdb/influxdb/cluster/points_writer.go:350-394 | every arrival order of the same answers gives the same class |
| WriteShard.RunHolds | src/influxdb/influxdb/cluster/points_writer.go:310-394 | in every interleaving each writer answers once and truthfully, and the loop has counted the answers it took |
| WriteShard.SuccessNeedsOwners | src/influxdb/influxdb/cluster/points_writer.go:292-394 | for distinct owners, success is returned only after the required number of them stored the points; a hinted handoff stands in only at level Any |
| WriteShard.SuccessByLevel | src/influxdb/influxdb/cluster/points_writer.go:292-394 | in every run success means that every owner stored the points at All, more than half of them at Quorum, one at One, and at Any that one stored them or had them handed off |
| WriteShard.CalmByLevel | src/influxdb/influxdb/cluster/points_writer.go:292-394 | when all owners answer and nothing cuts the wait short, success is returned exactly in these cases, and failure exactly if none did |
| WriteShard.RemotePath | src/influxdb/influxdb/cluster/points_writer.go:330-345 | a remote write is handed off exactly if its error is worth retrying, and reports its error unless the handoff counts |
| WriteShard.LocalPath | src/influxdb/influxdb/cluster/points_writer.go:312-328 | a local write to a shard that is not there makes it and writes once more |
| WriteShard.CalmOutcome | src/influxdb/influxdb/cluster/points_writer.go:292-394 | in every interleaving without timeout or close the class depends on the number of successes alone |
| WriteShard.QuorumsMeet | src/influxdb/influxdb/cluster/points_writer.go:292-301 | two successful quorum writes to one shard were stored by a common owner |
| Aggregates.MapCount | src/influxdb/influxdb/tsdb/functions.go:248-254 | the number of samples |
| Aggregates.MapSum | src/influxdb/influxdb/tsdb/functions.go:367-392 | none for no samples, else for samples of one type their total in that type |
| Aggregates.ReduceSum | src/influxdb/influxdb/tsdb/functions.go:395-421 | none if every part is, else the total of the parts in the field's type |
| Aggregates.Count | src/influxdb/influxdb/tsdb/functions.go:248-254 | count over at least one shard is the number of all samples |
| Aggregates.Sum | src/influxdb/influxdb/tsdb/functions.go:367-421 | sum over shards is the total of all samples |
| Aggregates.MapMean | src/influxdb/influxdb/tsdb/functions.go:424-441 | count and total of the samples |
| Aggregates.Mean | src/influxdb/influxdb/tsdb/functions.go:424-463 | mean over shards is the total over the count of all samples |
| Aggregates.MapSpread | src/influxdb/influxdb/tsdb/functions.go:815-842 | least and greatest of the samples |
| Aggregates.Spread | src/influxdb/influxdb/tsdb/functions.go:815-873 | spread over shards is the greatest less the least of all samples |
| Aggregates.TotalPermuted | src/influxdb/influxdb/tsdb/functions.go:367-463 | count and total do not depend on how the samples are spread or ordered |
| Aggregates.TotalOne | src/influxdb/influxdb/tsdb/functions.go:367-392 | the total of one sample is its number |
| Aggregates.TotalSplit | src/influxdb/influxdb/tsdb/functions.go:367-392 | the total of samples put together is the sum of their totals |
| Aggregates.RangesUnique | src/influxdb/influxdb/tsdb/functions.go:815-873 | least and greatest do not depend on it either |
| Selectors.MapMin | src/influxdb/influxdb/tsdb/functions.go:628-672 | of samples in time order, the least value at its earliest time |
| Selectors.MapMax | src/influxdb/influxdb/tsdb/functions.go:725-768 | of samples in time order, the greatest value at its earliest time |
| Selectors.ReduceMin | src/influxdb/influxdb/tsdb/functions.go:675-711 | the best of the parts is the best of all samples |
| Selectors.ReduceMax | src/influxdb/influxdb/tsdb/functions.go:771-807 | the best of the parts is the best of all samples |
| Selectors.Minimum | src/influxdb/influxdb/tsdb/functions.go:628-711 | min over time-ordered shards: the least value, at its earliest time |
| Selectors.Maximum | src/influxdb/influxdb/tsdb/functions.go:725-807 | max over time-ordered shards: the greatest value, at its earliest time |
| Selectors.MapFirst | src/influxdb/influxdb/tsdb/functions.go:934-963 | of samples in time order, the greatest value at the earliest time |
| Selectors.MapLast | src/influxdb/influxdb/tsdb/functions.go:1006-1039 | the greatest value at the latest time |
| Selectors.FirstOf | src/influxdb/influxdb/tsdb/functions.go:934-1003 | first over time-ordered shards: the earliest time, with its greatest value |
| Selectors.LastOf | src/influxdb/influxdb/tsdb/functions.go:1006-1080 | last over shards: the latest time, with its greatest value |
| Selectors.SelectionUnique | src/influxdb/influxdb/tsdb/functions.go:628-1080 | the selected sample depends on which samples there are, not on how they are spread |
| Selectors.SelectionMeans | src/influxdb/influxdb/tsdb/functions.go:628-873 | min and max are the extreme value at its earliest time, first and last the extreme time with its greatest value |
| FieldCodec.MeasurementFields.CreateFieldIfNotExists | src/influxdb/influxdb/tsdb/shard.go:480-504 | a new field gets the next id in eight bits, however many there are; the two refusals exactly; up to 256 fields later codecs extend earlier ones |
| FieldCodec.IdsDistinctExact | src/influxdb/influxdb/tsdb/shard.go:480-504 | the ids of a schema differ if and only if it has at most 256 fields |
| FieldCodec.NumberedFromOne | src/influxdb/influxdb/tsdb/shard.go:494-501 | the fields are numbered from one in the order they came |
| FieldCodec.SchemaCodedExact | src/influxdb/influxdb/tsdb/shard.go:480-504 | the codec of a schema has the right field for every id if and only if there are at most 256 fields |
| FieldCodec.NewFieldCodec | src/influxdb/influxdb/tsdb/shard.go:527-535 | both maps of a codec, from a field map in any order; the one by id is right for every field if and only if no two ids agree |
| FieldCodec.EncodeFields | src/influxdb/influxdb/tsdb/shard.go:542-608 | succeeds if and only if every value has a field of its type, and then encodes them all, in the order the map gives them |
| FieldCodec.Layout | src/influxdb/influxdb/tsdb/shard.go:542-617 | the bytes of a field: id, then eight bytes of a number, one of a flag, or a string with its length in two bytes before it |
| FieldCodec.BigEndianByte | src/influxdb/influxdb/tsdb/shard.go:542-617 | the most significant byte of a number comes first |
| FieldCodec.ReadBack | src/influxdb/influxdb/tsdb/shard.go:556-601 | a value of at most 65,532 bytes is read back from its encoding, whatever follows |
| FieldCodec.DecodeFields | src/influxdb/influxdb/tsdb/shard.go:620-674 | decodes all fields, with its error and its panics, as the specification `Parse` |
| FieldCodec.DecodeFieldsWithNames | src/influxdb/influxdb/tsdb/shard.go:678-691 | the decoded fields under their names |
| FieldCodec.RoundTripExact | src/influxdb/influxdb/tsdb/shard.go:542-691 | decoding an encoded point gives the point back, for every map order, if and only if no string is longer than 65,532 bytes |
| FieldCodec.WriteThenRead | src/influxdb/influxdb/tsdb/shard.go:542-691 | encoding a point and decoding the bytes by name returns the point if and only if no string is longer than 65,532 bytes |
| FieldCodec.DecodedFits | src/influxdb/influxdb/tsdb/shard.go:620-691 | a point decoded from any bytes has only values that fit their fields and strings that are read back |
| FieldCodec.ReadThenWrite | src/influxdb/influxdb/tsdb/shard.go:542-691 | a point decoded from any bytes is the same after encoding and decoding it again |
| FieldCodec.DecodeByName | src/influxdb/influxdb/tsdb/shard.go:696-758 | the first field with the name's id, with its errors |
| FieldCodec.ScanAgrees | src/influxdb/influxdb/tsdb/shard.go:696-758 | reading one field of an encoded point without longer strings agrees with the point |
| FieldCodec.GrowthKeepsDecoding | src/influxdb/influxdb/tsdb/shard.go:620-691 | any bytes an older schema decodes, a later one decodes to the same names and values |
| Snapshot.Diff | src/influxdb/influxdb/snapshot/snapshot.go:22-48 | the files newer than in the other manifest or not in it, in order of name |
| Snapshot.Merge | src/influxdb/influxdb/snapshot/snapshot.go:52-81 | the newest version of every file, the first manifest's if equally new, in order of name |
| Snapshot.DiffThenMerge | src/influxdb/influxdb/snapshot/snapshot.go:22-81 | merging a base with the diff of a newer manifest equals merging the two directly |
| Snapshot.Reader.Next | src/influxdb/influxdb/snapshot/snapshot.go:146-167 | the file of the next entry, EOF, or an entry its manifest does not have |
| Snapshot.MultiReader.Manifest | src/influxdb/influxdb/snapshot/snapshot.go:206-225 | the merge of the readers' manifests, worked out once |
| Snapshot.CombinesExactly | src/influxdb/influxdb/snapshot/snapshot.go:206-225 | the merged manifest has exactly the newest version of every file |
| Snapshot.MultiReader.NextFiles | src/influxdb/influxdb/snapshot/snapshot.go:277-295 | every reader with something left has a file at hand |
| Snapshot.PickReader | src/influxdb/influxdb/snapshot/snapshot.go:249-261 | the first reader with this version, and every version of the file put aside |
| Snapshot.AtHand | src/influxdb/influxdb/snapshot/snapshot.go:228-274 | the next file of the manifest is at hand in an archive that has its newest version |
| Snapshot.MultiReader.Next | src/influxdb/influxdb/snapshot/snapshot.go:228-274 | hands out the merged manifest in order, each file once from a reader that has this version; a file is never missing |
| Snapshot.ReadAll | src/influxdb/influxdb/snapshot/snapshot.go:228-274 | reading to the end gives exactly the merged manifest |
| SeriesKey.Escape | src/influxdb/influxdb/models/points.go:876-895 | every special byte gets a backslash, whatever order the table is iterated in |
| SeriesKey.EscapesOne | src/influxdb/influxdb/models/points.go:16-27 | in a tag the comma, the blank and the equals sign are escaped, in a name the comma and the blank, and nothing else |
| SeriesKey.Unescape | src/influxdb/influxdb/models/points.go:883-902 | whatever order the table is iterated in: undoes the escaping of every byte string, takes the backslashes off a text that has them only before special bytes, and makes safe every text that a scan takes in whole |
| SeriesKey.ScanTo | src/influxdb/influxdb/models/points.go:779-800 | where the block ends, a backslash skipping the byte after it |
| SeriesKey.ScanExact | src/influxdb/influxdb/models/points.go:779-845 | a scan finds the end of an escaped text if and only if no unpaired backslash ends the text or stands before the stop byte |
| SeriesKey.HashKey | src/influxdb/influxdb/models/points.go:1176-1219 | the non-empty tags, escaped and in order of escaped key, written into a buffer of the right size |
| SeriesKey.EmptyIsNone | src/influxdb/influxdb/models/points.go:1176-1219 | a tag with an empty value is as good as none |
| SeriesKey.MakeKey | src/influxdb/influxdb/models/points.go:1066-1070 | the escaped name and the tags; a name already escaped is not escaped twice |
| SeriesKey.NameExact | src/influxdb/influxdb/models/points.go:1003-1006 | the raw name of a key is the escaped name if and only if the name is safe |
| SeriesKey.RawName | src/influxdb/influxdb/models/points.go:1003-1006 | the text up to the first bare comma, or none when the scan runs past the end |
| SeriesKey.ReadTags | src/influxdb/influxdb/models/points.go:1034-1064 | the tags of any key: the texts of its pairs, cut by the scans and unescaped, put into a map one after another; none when a scan runs past the end |
| SeriesKey.MadeReads | src/influxdb/influxdb/models/points.go:1034-1064 | of a key made from a safe name and safe tags, the tags read are exactly the non-empty ones, and the raw name is the escaped name |
| SeriesKey.ReadIsSafe | src/influxdb/influxdb/models/points.go:1034-1064 | whatever the key, every tag key and value read from it is safe |
| SeriesKey.TagsExact | src/influxdb/influxdb/models/points.go:1034-1070 | the non-empty tags are read back only if they are safe, and, of a key with a safe name that is not empty, if and only if they are |
| SeriesKey.MakeThenRead | src/influxdb/influxdb/models/points.go:1034-1070 | of any name and any tags, making a key and reading it gives back the name and the non-empty tags if and only if the name is safe, the tags are safe, and there is a name unless there are no tags |
| SeriesKey.BackslashSwallows | src/influxdb/influxdb/models/points.go:827-845 | the scan of every value that ends in a backslash goes on over the comma into the next tag |
| SeriesKey.SwallowedTag | src/influxdb/influxdb/models/points.go:1034-1064 | of every key with a name and two tags without other backslashes, of which the first has a value that ends in one, only the first tag is read, with the second in its value |
| SeriesKey.SwallowedExample | src/influxdb/influxdb/models/points.go:1034-1064 | the key `m,a=x\,b=y`, made from the tags `a` and `b`, has the one tag `a` with the value `x,b=y` |
| SeriesKey.SameKey | src/influxdb/influxdb/models/points.go:1066-1070 | a key made from safe names and tags determines the name and the non-empty tags |
| SeriesKey.PlainIsMadeFrom | src/influxdb/influxdb/models/points.go:1066-1070 | names and tags without backslashes are always safe |

## Left out

- Raft, RPC, connection pools, HTTP, protobuf and JSON marshalling, the storage engines, tar files: foreign code. A raft position is any number, an engine cursor is a sorted run with a position, an archive is its manifest and entry names.
- `container/heap` and `sort` are used by their contracts; the sort is any rearrangement in order.
- Locks, and commands that other clients apply between the lookups of one `MapShards` call.
- 64-bit overflow of counters, sums, times and durations; rounding of float64; NaN and infinities.
- `SetData`, subscriptions, users and continuous queries in the metadata: they do not touch what is modelled, except `SetData`, which replaces it.
- The text of InfluxQL as a whole: the printer writes and the parser reads tokens that carry their values. `Lexer` models the text of names, strings, regexes and DISTINCT fields, and of durations as a number and a unit; the digits of numbers, the format of times, operators and white space are taken to scan back. What the printer loses is modelled: rounded numbers, durations without a unit, and every leaf whose text does not scan as that leaf. In the place of such a text stands one token that no operand starts with, so that it fails to parse, where the code may read something else than was printed.
- InfluxQL statements other than expressions; the rewriting of statements; regular-expression matching, which is a parameter.
- `escape.UnescapeString` in the tag index is a parameter; FNV hashes are a field of the point.
- `TagSetCursor`, `RawMapper` and `RawExecutor`; `distinct`, `percentile`, `stddev`, `top`, `bottom` and derivatives; fill and post-processing of rows.
- The fields and tags that min, max, first and last carry along with the selected sample; only its time and value are modelled.
- Errors a mapper may return in the middle of the executor's loop; the loop then stops with the error.
- Reading past the length of a byte slice but within its capacity: decoding and scanning count it as running out of range.
- WhereWalk.WalkWhere: says which series are selected for AND, OR and parens over comparisons with the time, of tag keys, and of fields where folding leaves a comparison by the same operator with a name on one side; for other expressions it says only that the ids ascend.
- Reduce.RedKeepsValue: is about conditions without calls, times, durations and nil, in which AND and OR have boolean operands and no strings are added, because evaluation gives nil where folding does not; which single folds differ is exact in `Reduce.FoldTruthExact`.
- Mapper.EachSampleOnce: is about ascending cursors and queries without LIMIT and OFFSET, which leave out windows as `Windows.LimitTakesSlice` says.
- TimeRange.RangeContains: is about conditions whose comparisons with the time are joined by AND, because OR is narrowed too far; `TimeRange.RangeExact` is about all.
- TimeRange.RangeExact: is about times that are not exactly at a strict bound, where the order of the comparisons decides, and not about the bounds next to the zero time, which stand for no bound; `TimeRange.RangeNearly` says what holds at a strict bound.
- Routing.RoutedExact: is about policies whose live groups do not overlap, as `ClusterTime.PolicyTidy` shows of those whose groups have not become longer; when they overlap, sorting decides which one is found, and `Routing.RoutedByAll` says what does not depend on it.
- Aggregates.Sum: is about samples of one type, as a field has, and so are the other aggregates and selectors.
- Snapshot.MultiReader.Next: is about archives whose manifests are sorted by unique names and whose entries are those of the manifest.
- Snapshot.Diff: takes the names in a manifest to be unique, and so does `Snapshot.Merge`.
- Executor.Execute: takes tag set keys to be non-empty and in order in every mapper, because the empty string stands for no tag set yet; `Executor.MapperOrdered` shows that mappers emit them so.
