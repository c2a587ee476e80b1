# Earthquake feed query engine in Dafny

A model of the query engine behind a small REST service that answers
questions about USGS earthquake feeds. The feed is an Atom document
(RFC 4287, with the GeoRSS `point` and `elev` extensions). Each `entry` of
the feed becomes a `QuakeEntry` record: a location, a magnitude, a title,
a depth, an id, a date and a link. The records are then filtered, sorted
or ranked by magnitude.

The modules follow the Java packages:

- `Quake` (quake_entry.dfy): the `QuakeEntry` record, its constructors,
  its setters and its natural order.
- `Filters` (filters.dfy): the filter package's `Magnitude`, `Depth`,
  `Distance`, `Phrase` and `MatchAll` filters, one datatype variant each.
- `Comparators` (comparators.dfy): the depth, title, and title-then-depth
  comparators, with proofs that each meets the `Comparator` contract.
- `Client` (client.dfy): the list filters of the client service.
- `MagnitudeAnalyzer` (magnitude_analyzer.dfy): `indexOfLargest` and
  `getLargest` as written, and `TopLargest`, the selection that
  `getLargest`'s documentation promises.
- `XmlParsing` (xml_parsing.dfy): the per-field readers for id, magnitude,
  depth, link, date and title, plus the point reader.
- `Feed` (feed.dfy): the document as the parsers see it, and the entry
  loop they share, over the whole child list or over a window of it.
- `ParserManager` (parser_manager.dfy): `read`, `getPaginatedEarthquakeData`
  and `readTitles`.
- `CsvParser` (csv_parser.dfy): the older `read` of the csv package.
- `Pagination` (pagination.dfy): the static paginated `read`.
- `JavaString`, `Seqs` and `Outcomes`: the pieces of `java.lang.String`,
  of list filtering and of exceptions that the model needs.

A Java exception is a `Failure` of the `Outcomes.Result` type. The loop
that reads the entries stops at the first one and propagates it. The
exceptions are `NullPointerException`, `NumberFormatException`,
`IndexOutOfBoundsException` and `IllegalArgumentException`.

A document that cannot be loaded is `LoadFailed`. The three checked
exceptions of `DocumentBuilder.parse` are caught, so such a document
yields an empty list. The csv parser yields null instead.

Two things the model cannot see are passed in as function parameters:
`Double.parseDouble` as `parse: string -> Option<real>`, and
`Location.distanceTo` as `dist`.

All source paths below are relative to the repository root. The package
prefix is `src/main/java/com/rest/earthquakeapi/`.

Where the code and its documentation disagree, the model follows the code:

- `DepthFilter` switches itself off when EITHER bound is 0.0 (`||`), not
  only when both are.
- The csv parser tests each sub-element `NodeList` against null, which it
  never is. So a missing point, title, elevation or id throws a
  `NullPointerException`; it does not fall back to a default.
- `bigQuakes` logs "5.0 and above", but `filterByMagnitude` keeps
  magnitudes strictly above 5.0.
- In all three `ParserManager` loops and in the paginated `read`, only a
  document that cannot be loaded gives an empty list. A runtime exception
  in any entry escapes to the caller.
- `TitleParser.java` does not compile. Its body repeats the csv parser's
  title code, so the title reader of `ParserManager` and `Pagination`
  follows it. First it cuts out the magnitude token and parses it, which
  throws IndexOutOfBounds for a title without a space at index 2 or later,
  and NumberFormat for a token that is neither a numeral nor holds '?'.
  Then it returns the text after the first space at or after index 5,
  without a leading "-" token. An entry without a `title` element gets a
  null title.
- Both date readers replace the `&deg;` entity in the summary before
  re-parsing it, but with different text: the csv parser writes "°", and
  `DateTimeParser` writes "Â°", which is the degree sign's UTF-8 bytes read
  as Latin-1. A summary whose first `dd` holds the entity therefore gets
  two different dates from the two readers.
- The csv parser calls a seven-argument `QuakeEntry` constructor that does
  not exist. It is modelled as the eight-argument constructor with a null
  link.

## Model

| member | source | states |
|---|---|---|
| Quake.NewQuakeEntry | src/main/java/com/rest/earthquakeapi/model/QuakeEntry.java:31-38 | the five-argument constructor sets location, magnitude, title and depth, and leaves id, date and link null |
| Quake.NewFullQuakeEntry | src/main/java/com/rest/earthquakeapi/model/QuakeEntry.java:39-48 | the eight-argument constructor stores every argument in its own field |
| Quake.SetMyLocation | src/main/java/com/rest/earthquakeapi/model/QuakeEntry.java:65-67 | replaces the location; every other field is unchanged |
| Quake.SetTitle | src/main/java/com/rest/earthquakeapi/model/QuakeEntry.java:73-75 | replaces the title; every other field is unchanged |
| Quake.SetDepth | src/main/java/com/rest/earthquakeapi/model/QuakeEntry.java:77-79 | replaces the depth; every other field is unchanged |
| Quake.SetMagnitude | src/main/java/com/rest/earthquakeapi/model/QuakeEntry.java:81-83 | replaces the magnitude; every other field is unchanged |
| Quake.SetId | src/main/java/com/rest/earthquakeapi/model/QuakeEntry.java:109-111 | replaces the id; every other field is unchanged |
| Quake.SetDateTime | src/main/java/com/rest/earthquakeapi/model/QuakeEntry.java:117-119 | replaces the date; every other field is unchanged |
| Quake.SetLink | src/main/java/com/rest/earthquakeapi/model/QuakeEntry.java:125-127 | replaces the link; every other field is unchanged |
| Quake.NaturalOrderIgnoresFields | src/main/java/com/rest/earthquakeapi/model/QuakeEntry.java:89-103 | `compareTo` ranks any two records as equal in both directions; records with different titles are unequal yet compare as 0, so the natural order is not consistent with equals |
| Filters.MagnitudeFilterRange | src/main/java/com/rest/earthquakeapi/filter/MagnitudeFilter.java:16-18 | accepts exactly the magnitudes in [minMag, maxMag]; both bounds are inclusive; an inverted range accepts nothing |
| Filters.MagnitudeFilterReadsMagnitudeOnly | src/main/java/com/rest/earthquakeapi/filter/MagnitudeFilter.java:16-18 | two records with the same magnitude get the same verdict |
| Filters.DepthFilterRange | src/main/java/com/rest/earthquakeapi/filter/DepthFilter.java:16-21 | a 0.0 bound on either side accepts every record; otherwise it accepts exactly the depths in [minDepth, maxDepth] |
| Filters.DepthFilterZeroUpperBoundAcceptsAll | src/main/java/com/rest/earthquakeapi/filter/DepthFilter.java:17-18 | with bounds (-10000, 0) a record at depth -50000 is accepted, though it lies below the lower bound |
| Filters.DepthFilterReadsDepthOnly | src/main/java/com/rest/earthquakeapi/filter/DepthFilter.java:16-21 | two records with the same depth get the same verdict |
| Filters.DistanceFilterStrict | src/main/java/com/rest/earthquakeapi/filter/DistanceFilter.java:16-18 | accepts exactly when the record's distance to the origin is strictly below the maximum; a record at exactly the maximum is rejected; a non-positive maximum rejects every non-negative distance |
| Filters.DistanceFilterReadsLocationOnly | src/main/java/com/rest/earthquakeapi/filter/DistanceFilter.java:16-18 | two records at the same location get the same verdict |
| Filters.PhraseFilterDispatch | src/main/java/com/rest/earthquakeapi/filter/PhraseFilter.java:16-24 | "start", "end" and "any" accept exactly the titles that start with, end with or contain the phrase; any other request kind rejects every record |
| Filters.PhraseAnyIsWeakest | src/main/java/com/rest/earthquakeapi/filter/PhraseFilter.java:18-22 | a title that passes "start" or "end" also passes "any" with the same phrase |
| Filters.PhraseEmptyAcceptsAll | src/main/java/com/rest/earthquakeapi/filter/PhraseFilter.java:19-21 | the empty phrase passes every title under all three request kinds |
| Filters.PhraseFilterReadsTitleOnly | src/main/java/com/rest/earthquakeapi/filter/PhraseFilter.java:16-24 | two records with the same title get the same verdict |
| Filters.NewMatchAll | src/main/java/com/rest/earthquakeapi/filter/MatchAllFilter.java:11-13 | a new MatchAllFilter holds no filters |
| Filters.AddFilter | src/main/java/com/rest/earthquakeapi/filter/MatchAllFilter.java:15-17 | the added filter goes last, and the earlier filters keep their order |
| Filters.AllSatisfyFromIffEvery | src/main/java/com/rest/earthquakeapi/filter/MatchAllFilter.java:19-27 | the loop started at position k returns true exactly when every filter from k on accepts |
| Filters.MatchAllIffEvery | src/main/java/com/rest/earthquakeapi/filter/MatchAllFilter.java:19-27 | a MatchAllFilter accepts exactly when each filter it holds accepts |
| Filters.NewMatchAllAcceptsAll | src/main/java/com/rest/earthquakeapi/filter/MatchAllFilter.java:19-27 | a MatchAllFilter with no filters accepts every record |
| Filters.AddFilterConjoins | src/main/java/com/rest/earthquakeapi/filter/MatchAllFilter.java:15-27 | after `addFilter(f)` the filter accepts exactly what it accepted before AND `f` accepts, so adding a filter never admits more records |
| Filters.MatchAllOrderIrrelevant | src/main/java/com/rest/earthquakeapi/filter/MatchAllFilter.java:19-27 | two filter lists that are permutations of each other give the same verdict |
| Comparators.DepthCompareOrder | src/main/java/com/rest/earthquakeapi/sorting/DepthComparator.java:6-17 | the result is negative, zero or positive exactly when the first depth is below, equal to or above the second, and swapping the arguments negates it |
| Comparators.DepthComparatorValid | src/main/java/com/rest/earthquakeapi/sorting/DepthComparator.java:6-17 | the comparator meets the Comparator contract: the sign flips on a swap, "greater" is transitive, and records that compare as 0 compare alike with everything |
| Comparators.TitleCompareOrder | src/main/java/com/rest/earthquakeapi/sorting/TitleComparator.java:5-7 | negative exactly when the first title is lexicographically smaller; zero exactly when the titles are equal; a proper prefix sorts first; swapping the arguments negates it |
| Comparators.TitleComparatorValid | src/main/java/com/rest/earthquakeapi/sorting/TitleComparator.java:5-7 | the title order meets the Comparator contract |
| Comparators.TitleAndDepthCompareOrder | src/main/java/com/rest/earthquakeapi/sorting/TitleAndDepthComparator.java:8-22 | different titles decide by the title order alone; equal titles decide by depth; the result is 0 exactly when both title and depth agree |
| Comparators.TitleAndDepthComparatorValid | src/main/java/com/rest/earthquakeapi/sorting/TitleAndDepthComparator.java:8-22 | the title-then-depth order meets the Comparator contract |
| JavaString.CompareNegativeIffLexLess | src/main/java/com/rest/earthquakeapi/sorting/TitleComparator.java:6 | `String.compareTo` is negative exactly when the first string is lexicographically smaller (smaller at the first difference, or a proper prefix) |
| JavaString.CompareAntisymmetric | src/main/java/com/rest/earthquakeapi/sorting/TitleComparator.java:6 | swapping the strings negates `compareTo` |
| JavaString.CompareZeroIffEqual | src/main/java/com/rest/earthquakeapi/sorting/TitleComparator.java:6 | `compareTo` is 0 exactly for equal strings |
| JavaString.CompareTransitive | src/main/java/com/rest/earthquakeapi/sorting/TitleComparator.java:6 | if a > b and b > c under `compareTo`, then a > c |
| JavaString.StartsWithImpliesContains | src/main/java/com/rest/earthquakeapi/filter/PhraseFilter.java:19-21 | a string that starts with a phrase contains it |
| JavaString.EndsWithImpliesContains | src/main/java/com/rest/earthquakeapi/filter/PhraseFilter.java:20-21 | a string that ends with a phrase contains it |
| JavaString.IndexOfFirst | src/main/java/com/rest/earthquakeapi/XMLParsing/IdParser.java:15 | `indexOf(c, from)` is the first position at or after `from` that holds `c` |
| JavaString.TrimKeepsMiddle | src/main/java/com/rest/earthquakeapi/XMLParsing/DateTimeParser.java:55 | `trim()` gives a stretch of the string that neither starts nor ends with a character up to ' '; everything it drops on either side is such a character |
| JavaString.SplitOnSpaceShape | src/main/java/com/rest/earthquakeapi/ParserManager/EarthQuakeParser.java:57 | no piece of `split(" ")` holds a space; a string without a space splits into itself; trailing empty pieces are removed |
| JavaString.SplitTwoWords | src/main/java/com/rest/earthquakeapi/ParserManager/EarthQuakeParser.java:57-59 | two non-empty words joined by one space split back into the two words |
| Seqs.KeepSelects | src/main/java/com/rest/earthquakeapi/service/EarthQuakeClient.java:62-64 | a stream filter keeps every occurrence of a passing element, drops all others, and keeps the order |
| Seqs.RemoveAtMultiset | src/main/java/com/rest/earthquakeapi/service/QuakeMagnitudeAnalyzer.java:63 | `remove(i)` takes away exactly one copy of the element at `i` |
| Client.FilterByMagnitude | src/main/java/com/rest/earthquakeapi/service/EarthQuakeClient.java:52-67 | a null list or a negative minimum throws IllegalArgumentException; otherwise the result is, in order, every record whose magnitude is strictly above the minimum, each as often as in the input |
| Client.FilterByDistanceFrom | src/main/java/com/rest/earthquakeapi/service/EarthQuakeClient.java:83-91 | the result is, in order, every record whose distance from `from` is strictly below `distMax`, each as often as in the input |
| Client.BigQuakesExcludesFive | src/main/java/com/rest/earthquakeapi/service/EarthQuakeClient.java:117-118 | a magnitude-5.0 record is not among the "big" quakes |
| Client.DistanceFromAgreesWithFilter | src/main/java/com/rest/earthquakeapi/service/EarthQuakeClient.java:86-89 | with a symmetric distance, the list filter keeps exactly what a DistanceFilter around the same point accepts |
| Client.DistanceFromDisagreesWhenAsymmetric | src/main/java/com/rest/earthquakeapi/service/EarthQuakeClient.java:86-89 | the list filter measures from the origin and the DistanceFilter from the record; for an asymmetric distance the two disagree |
| MagnitudeAnalyzer.IndexOfLargest | src/main/java/com/rest/earthquakeapi/service/QuakeMagnitudeAnalyzer.java:31-43 | -1 exactly for a null or empty list; otherwise a valid index |
| MagnitudeAnalyzer.ScanLargestFindsEarliest | src/main/java/com/rest/earthquakeapi/service/QuakeMagnitudeAnalyzer.java:35-42 | the loop keeps "earliest largest so far", and ends with the earliest largest of the whole list |
| MagnitudeAnalyzer.IndexOfLargestIsEarliest | src/main/java/com/rest/earthquakeapi/service/QuakeMagnitudeAnalyzer.java:31-43 | on a non-empty list the index holds a magnitude no record exceeds, and no earlier record has that magnitude |
| MagnitudeAnalyzer.LargestRun | src/main/java/com/rest/earthquakeapi/service/QuakeMagnitudeAnalyzer.java:60-65 | a non-positive `howMany` or an empty list gives nothing and leaves the list alone; up to the list's size it returns exactly `howMany` records and removes that many; beyond it, it throws IndexOutOfBounds with the caller's list emptied |
| MagnitudeAnalyzer.LargestRunDrawsFromSnapshot | src/main/java/com/rest/earthquakeapi/service/QuakeMagnitudeAnalyzer.java:56-62 | every record returned comes from the copy taken on entry |
| MagnitudeAnalyzer.LargestRunShrinksList | src/main/java/com/rest/earthquakeapi/service/QuakeMagnitudeAnalyzer.java:63 | the caller's list only loses records |
| MagnitudeAnalyzer.LargestRunRound | src/main/java/com/rest/earthquakeapi/service/QuakeMagnitudeAnalyzer.java:60-64 | one round takes the copy's record at the index of the largest in the SHRUNKEN list, then removes that index from the list |
| MagnitudeAnalyzer.GetLargest | src/main/java/com/rest/earthquakeapi/service/QuakeMagnitudeAnalyzer.java:53-67 | the method's loop computes the outcome described for `LargestRun`; every returned record is in the input, and the caller's list only loses records |
| MagnitudeAnalyzer.LargestRunHeadIsLargest | src/main/java/com/rest/earthquakeapi/service/QuakeMagnitudeAnalyzer.java:61-62 | the first record returned is the earliest largest of the whole list |
| MagnitudeAnalyzer.GetLargestMissesSecondLargest | src/main/java/com/rest/earthquakeapi/service/QuakeMagnitudeAnalyzer.java:61-62 | magnitudes [5, 3, 4], two wanted: the result is [5, 3] and the 4 is missed |
| MagnitudeAnalyzer.GetLargestUnsortedWithRepeat | src/main/java/com/rest/earthquakeapi/service/QuakeMagnitudeAnalyzer.java:61-63 | magnitudes [9, 7, 1, 8], three wanted: the result is [9, 1, 9], unsorted and with the 9 twice |
| MagnitudeAnalyzer.GetLargestFailsWhenTooMany | src/main/java/com/rest/earthquakeapi/service/QuakeMagnitudeAnalyzer.java:60-62 | asking a one-record list for two throws IndexOutOfBounds, where the documentation promises the one record |
| MagnitudeAnalyzer.TopLargest | src/main/java/com/rest/earthquakeapi/service/QuakeMagnitudeAnalyzer.java:44-52 | the documented selection returns min(howMany, size) records, or none for a non-positive `howMany` |
| MagnitudeAnalyzer.TopLargestIsTop | src/main/java/com/rest/earthquakeapi/service/QuakeMagnitudeAnalyzer.java:44-52 | the documented selection is drawn from the list (as a sub-multiset), is sorted by non-increasing magnitude, and leaves out no record larger than any it takes |
| MagnitudeAnalyzer.TopSelects | src/main/java/com/rest/earthquakeapi/service/QuakeMagnitudeAnalyzer.java:44-52 | the same three properties of the documented selection, proved by induction on the rounds: each round takes the earliest largest of what is left |
| MagnitudeAnalyzer.TopLargestPicksFour | src/main/java/com/rest/earthquakeapi/service/QuakeMagnitudeAnalyzer.java:44-52 | on magnitudes [5, 3, 4] with two wanted, the documented selection is [5, 4] |
| XmlParsing.ParseNumber | src/main/java/com/rest/earthquakeapi/XMLParsing/DepthParser.java:16 | `parseDouble` succeeds exactly on a numeral, with its value; otherwise it throws NumberFormatException |
| XmlParsing.ExtractId | src/main/java/com/rest/earthquakeapi/XMLParsing/IdParser.java:15 | the id is a suffix of the raw text |
| XmlParsing.ExtractIdNoColon | src/main/java/com/rest/earthquakeapi/XMLParsing/IdParser.java:15 | without a colon, the id is the whole text |
| XmlParsing.ExtractIdOneColon | src/main/java/com/rest/earthquakeapi/XMLParsing/IdParser.java:15 | with exactly one colon, the id is what follows it |
| XmlParsing.ExtractIdTwoColons | src/main/java/com/rest/earthquakeapi/XMLParsing/IdParser.java:15 | with exactly two colons, the third search yields -1 and the id is the whole text |
| XmlParsing.ExtractIdThirdColon | src/main/java/com/rest/earthquakeapi/XMLParsing/IdParser.java:15 | with a third colon, the id is what follows it, whatever comes later |
| XmlParsing.ExtractIdAt | src/main/java/com/rest/earthquakeapi/XMLParsing/IdParser.java:15 | the id starts right after the position the third nested `indexOf` finds |
| XmlParsing.ReadId | src/main/java/com/rest/earthquakeapi/XMLParsing/IdParser.java:10-20 | null exactly without an `id` element; NullPointerException exactly for an `id` without text; otherwise a suffix of the text |
| XmlParsing.MagnitudeToken | src/main/java/com/rest/earthquakeapi/XMLParsing/MagnitudeParser.java:17 | `substring(2, indexOf(" ", 2))` succeeds exactly when a space occurs at index 2 or later, and is then the text between index 2 and the first such space; otherwise it throws IndexOutOfBounds |
| XmlParsing.MagnitudeValue | src/main/java/com/rest/earthquakeapi/XMLParsing/MagnitudeParser.java:19-25 | a token holding '?' reads as 0.0; any other token is parsed, and throws NumberFormatException when it is not a numeral |
| XmlParsing.ReadMagnitude | src/main/java/com/rest/earthquakeapi/XMLParsing/MagnitudeParser.java:11-30 | null exactly without a `title` element; NullPointerException for a title without text; for a title with text it succeeds exactly when the token can be cut out and read, with the token's value; a missing token throws IndexOutOfBounds and an unparsable one NumberFormat |
| XmlParsing.Description | src/main/java/com/rest/earthquakeapi/csv/EarthQuakeParser.java:81-87 | the description is a suffix of the title |
| XmlParsing.UsgsTitleSplits | src/main/java/com/rest/earthquakeapi/csv/EarthQuakeParser.java:69-87 | a USGS title "M <mag> - <place>" gives `mag` as the token and `place` as the description |
| XmlParsing.UsgsLongMagnitude | src/main/java/com/rest/earthquakeapi/csv/EarthQuakeParser.java:81-87 | with a magnitude of three or more characters, the description is the place, even one that starts with "-" |
| XmlParsing.SampleTitle | src/main/java/com/rest/earthquakeapi/csv/EarthQuakeParser.java:171 | the sample title gives token "1.7" and description "75km WSW of Cantwell, Alaska" |
| XmlParsing.DescriptionWithoutLateSpace | src/main/java/com/rest/earthquakeapi/csv/EarthQuakeParser.java:81-82 | without a space at index 5 or later, the search yields -1 and the description is the whole title |
| XmlParsing.PointText | src/main/java/com/rest/earthquakeapi/ParserManager/EarthQuakeParser.java:55-59 | the point is read exactly when the text splits into at least two pieces whose first two parse, and then holds those two numbers; a text with no pieces throws IndexOutOfBounds; the only exceptions are IndexOutOfBounds and NumberFormat |
| XmlParsing.PointOfTwoNumbers | src/main/java/com/rest/earthquakeapi/ParserManager/EarthQuakeParser.java:57-59 | "lat lon" reads as the location (lat, lon) |
| XmlParsing.PointNeedsTwoPieces | src/main/java/com/rest/earthquakeapi/ParserManager/EarthQuakeParser.java:57-59 | a point text without a space always throws; when its one piece is a numeral, the exception is IndexOutOfBounds |
| XmlParsing.ReadPoint | src/main/java/com/rest/earthquakeapi/ParserManager/EarthQuakeParser.java:50-60 | without a `georss:point` the location is (0, 0); a point without text throws NullPointerException; otherwise the text is read |
| XmlParsing.ReadDepth | src/main/java/com/rest/earthquakeapi/XMLParsing/DepthParser.java:10-20 | 0.0 without a `georss:elev`; NullPointerException for one without text; otherwise the parsed text; it can only throw those two exceptions |
| XmlParsing.ReadLink | src/main/java/com/rest/earthquakeapi/XMLParsing/LinkParser.java:10-25 | the `href` of the first `link`, or "" without one |
| XmlParsing.ReadDateTime | src/main/java/com/rest/earthquakeapi/XMLParsing/DateTimeParser.java:18-77 | a date exactly when the summary re-parses to a `dl`: the trimmed first `dd` with each `&deg;` entity written as "Â°", or "" without one; otherwise null |
| XmlParsing.ReadTitle | src/main/java/com/rest/earthquakeapi/XMLParsing/TitleParser.java:16-37 | null exactly without a `title` element; throws exactly where the magnitude reader throws, with the same exception (the token cut and parse come first); otherwise a suffix of the text |
| Feed.Entries | src/main/java/com/rest/earthquakeapi/ParserManager/EarthQuakeParser.java:108 | every node listed is named `entry` |
| Feed.EntriesSelects | src/main/java/com/rest/earthquakeapi/ParserManager/EarthQuakeParser.java:108 | the `entry` elements are the root children named `entry`, in document order, each exactly as often as it occurs |
| Feed.ParseEntriesSucceedsIff | src/main/java/com/rest/earthquakeapi/ParserManager/EarthQuakeParser.java:43-83 | the entry loop succeeds exactly when every entry can be read |
| Feed.ParseEntriesFirstFailure | src/main/java/com/rest/earthquakeapi/ParserManager/EarthQuakeParser.java:43-83 | a failing loop throws the exception of the first entry that cannot be read |
| Feed.ParseEntriesFailureSticks | src/main/java/com/rest/earthquakeapi/ParserManager/EarthQuakeParser.java:43-83 | once a prefix of the children fails, the nodes after it do not change the outcome |
| Feed.ParseEntriesValues | src/main/java/com/rest/earthquakeapi/ParserManager/EarthQuakeParser.java:43-83 | a successful loop returns one record per entry, in document order, each being what reading that entry gives |
| Feed.ParseEntriesOfEntries | src/main/java/com/rest/earthquakeapi/ParserManager/EarthQuakeParser.java:43-46 | the loop ignores every child not named `entry` |
| Feed.Window | src/main/java/com/rest/earthquakeapi/pagination/EarthQuakeParserForPagination.java:41-42 | the clamped bounds admit exactly the positions the guard `k >= start && k < end` admits |
| Feed.ScanWindow | src/main/java/com/rest/earthquakeapi/pagination/EarthQuakeParserForPagination.java:41-79 | the loop that visits every position and reads the entries inside the window computes the window's result |
| Feed.ParseWindowOfSuccess | src/main/java/com/rest/earthquakeapi/pagination/EarthQuakeParserForPagination.java:41-79 | when the full loop succeeds, a window's result is the stretch of the full result made of the entries inside the window |
| Feed.ParseWindowFailure | src/main/java/com/rest/earthquakeapi/pagination/EarthQuakeParserForPagination.java:41-79 | a window can only throw when the full loop throws |
| Feed.EntryWindowOfSuccess | src/main/java/com/rest/earthquakeapi/ParserManager/EarthQuakeParser.java:129-167 | when the full loop succeeds, a window over the entries alone is the matching slice of the full result |
| Feed.EntryWindowFailure | src/main/java/com/rest/earthquakeapi/ParserManager/EarthQuakeParser.java:129-167 | a window over the entries alone can only throw when the full loop throws |
| Feed.WindowPastEnd | src/main/java/com/rest/earthquakeapi/pagination/EarthQuakeParserForPagination.java:41-42 | a window that starts at or after the last node is empty |
| ParserManager.ParseEntry | src/main/java/com/rest/earthquakeapi/ParserManager/EarthQuakeParser.java:46-81 | an entry without a `title` throws, because the magnitude reader's null is unboxed |
| ParserManager.ParseEntryReadsFields | src/main/java/com/rest/earthquakeapi/ParserManager/EarthQuakeParser.java:50-79 | an entry is read exactly when every field reader succeeds and a title is present; the record then holds what each reader returned |
| ParserManager.TitleOnlyEntry | src/main/java/com/rest/earthquakeapi/ParserManager/EarthQuakeParser.java:50-79 | an entry with only a USGS title reads as a record at (0, 0), depth 0, null id and empty link, titled with the place |
| ParserManager.Read | src/main/java/com/rest/earthquakeapi/ParserManager/EarthQuakeParser.java:20-88 | a document that cannot be loaded gives the empty list |
| ParserManager.ReadOneRecordPerEntry | src/main/java/com/rest/earthquakeapi/ParserManager/EarthQuakeParser.java:43-83 | `read` succeeds exactly when every entry can be read, and then returns one record per entry, in order |
| ParserManager.ReadFailsAtFirstBadEntry | src/main/java/com/rest/earthquakeapi/ParserManager/EarthQuakeParser.java:43-83 | a failing `read` throws the exception of the first entry that cannot be read |
| ParserManager.EntryWithoutTitleFailsRead | src/main/java/com/rest/earthquakeapi/ParserManager/EarthQuakeParser.java:74 | one entry without a title makes the whole `read` throw |
| ParserManager.MissingPointReadsAsOrigin | src/main/java/com/rest/earthquakeapi/ParserManager/EarthQuakeParser.java:52-60 | an entry without a point is placed at (0, 0) |
| ParserManager.GetPaginatedEarthquakeData | src/main/java/com/rest/earthquakeapi/ParserManager/EarthQuakeParser.java:96-172 | an unloadable document gives the empty list; a page holds at most `pageSize` records; a page throws only where `read` throws |
| ParserManager.ScanPage | src/main/java/com/rest/earthquakeapi/ParserManager/EarthQuakeParser.java:129-167 | the loop over the `entry` elements computes the page, holds at most `pageSize` records, and throws only where the full loop throws |
| ParserManager.PageLength | src/main/java/com/rest/earthquakeapi/ParserManager/EarthQuakeParser.java:114-118 | a page holds at most `pageSize` records, and none for a negative size |
| ParserManager.PageOutOfRange | src/main/java/com/rest/earthquakeapi/ParserManager/EarthQuakeParser.java:114-118 | a page starting at or past the last entry is empty |
| ParserManager.PageFailureMeansReadFailure | src/main/java/com/rest/earthquakeapi/ParserManager/EarthQuakeParser.java:129-167 | a page can only throw when `read` throws on the same document |
| ParserManager.PageIsSliceOfRead | src/main/java/com/rest/earthquakeapi/ParserManager/EarthQuakeParser.java:108-130 | when `read` succeeds, page p of size s is its slice [p*s, min(p*s + s, total)), clamped to the list |
| ParserManager.PageOfIsSlice | src/main/java/com/rest/earthquakeapi/ParserManager/EarthQuakeParser.java:108-130 | the same slice property, for any entry reader |
| ParserManager.PageOfSlice | src/main/java/com/rest/earthquakeapi/ParserManager/EarthQuakeParser.java:114-118 | for a positive size, page p is the slice between min(p*s, total) and min(p*s + s, total) |
| ParserManager.PagesOfArePrefix | src/main/java/com/rest/earthquakeapi/ParserManager/EarthQuakeParser.java:114-118 | pages 0 to count-1 laid end to end are the first min(count*s, total) records, so pages neither overlap nor skip |
| ParserManager.PagesCoverRead | src/main/java/com/rest/earthquakeapi/ParserManager/EarthQuakeParser.java:111-118 | pages 0 to ceil(total/s)-1 laid end to end are exactly what `read` returns |
| ParserManager.PagesOfCoverAll | src/main/java/com/rest/earthquakeapi/ParserManager/EarthQuakeParser.java:111-118 | the same covering property, for any entry reader |
| ParserManager.ReadTitles | src/main/java/com/rest/earthquakeapi/ParserManager/EarthQuakeParser.java:179-207 | a document that cannot be loaded gives the empty list |
| ParserManager.ReadTitlesMatchRead | src/main/java/com/rest/earthquakeapi/ParserManager/EarthQuakeParser.java:194-201 | when `read` succeeds, `readTitles` succeeds too, with one title per record, each the title of that record |
| ParserManager.TitlesFollowRecords | src/main/java/com/rest/earthquakeapi/ParserManager/EarthQuakeParser.java:194-201 | a title reader that agrees with the record reader on every readable entry gives, over the same nodes, the titles of the records |
| ParserManager.ReadTitlesFailureMeansReadFailure | src/main/java/com/rest/earthquakeapi/ParserManager/EarthQuakeParser.java:194-201 | `readTitles` can only throw when `read` throws |
| CsvParser.Required | src/main/java/com/rest/earthquakeapi/csv/EarthQuakeParser.java:62-63 | taking the text of the first sub-element succeeds exactly on a text field, and otherwise throws NullPointerException |
| CsvParser.CsvDateEmptyIff | src/main/java/com/rest/earthquakeapi/csv/EarthQuakeParser.java:98-144 | the csv date is "" exactly when the date reader gives null or "" |
| CsvParser.CsvDateIsDateTimeOrEmpty | src/main/java/com/rest/earthquakeapi/csv/EarthQuakeParser.java:98-144 | when the first `dd` holds no `&deg;` entity, the csv date is the date reader's date, with "" where the date reader gives null |
| CsvParser.CsvDateDegreeDiffers | src/main/java/com/rest/earthquakeapi/csv/EarthQuakeParser.java:103 | a first `dd` of "5&deg;" gives "5°" in the csv parser, against "5Â°" from the date reader |
| Feed.Render | src/main/java/com/rest/earthquakeapi/XMLParsing/DateTimeParser.java:28-29 | replacing the `&deg;` entity changes nothing in a text without the entity, whatever the replacement |
| CsvParser.CsvEntry | src/main/java/com/rest/earthquakeapi/csv/EarthQuakeParser.java:43-148 | a record read by the csv parser has a null link and the csv date |
| CsvParser.Read | src/main/java/com/rest/earthquakeapi/csv/EarthQuakeParser.java:20-164 | a document that cannot be loaded gives null; a loaded one gives a list whenever no entry throws |
| CsvParser.CsvEntryReadsFields | src/main/java/com/rest/earthquakeapi/csv/EarthQuakeParser.java:46-96 | an entry is read exactly when point, title, elevation and id are all present and parse; the record then holds the point, the token's magnitude, the description, the elevation and the id |
| CsvParser.CsvEntryNeedsEveryField | src/main/java/com/rest/earthquakeapi/csv/EarthQuakeParser.java:62-96 | any missing field of the four makes the entry throw; a missing point throws NullPointerException |
| CsvParser.CsvAgreesWithParserManager | src/main/java/com/rest/earthquakeapi/csv/EarthQuakeParser.java:62-148 | on an entry with all four fields, both parsers agree on whether it can be read, and give the same record apart from date and link |
| CsvParser.MissingElevationDiffers | src/main/java/com/rest/earthquakeapi/csv/EarthQuakeParser.java:89-92 | without an elevation the csv parser throws, where the ParserManager reads depth 0.0 |
| CsvParser.CsvReadOneRecordPerEntry | src/main/java/com/rest/earthquakeapi/csv/EarthQuakeParser.java:40-152 | `read` succeeds exactly when every entry can be read, and then returns one record per entry, in order |
| Pagination.Read | src/main/java/com/rest/earthquakeapi/pagination/EarthQuakeParserForPagination.java:14-84 | an unloadable document gives the empty list; a page holds at most `pageSize` records; a page throws only where the ParserManager's `read` throws |
| Pagination.PageLength | src/main/java/com/rest/earthquakeapi/pagination/EarthQuakeParserForPagination.java:35-42 | a page holds at most `pageSize` records, and none for a negative size |
| Pagination.PageOutOfRange | src/main/java/com/rest/earthquakeapi/pagination/EarthQuakeParserForPagination.java:35-42 | a window starting at or past the last root child is empty |
| Pagination.PageFailureMeansReadFailure | src/main/java/com/rest/earthquakeapi/pagination/EarthQuakeParserForPagination.java:41-83 | a page can only throw when the ParserManager's `read` throws on the same document |
| Pagination.PageIsStretchOfRead | src/main/java/com/rest/earthquakeapi/pagination/EarthQuakeParserForPagination.java:35-79 | when `read` succeeds, a page is the stretch of its result made of the entries whose child position falls in the window, and is no longer than the window |
| Pagination.OtherChildrenTakeRoom | src/main/java/com/rest/earthquakeapi/pagination/EarthQuakeParserForPagination.java:25-45 | the window counts all root children, so with a text node before two entries, the first page of two holds one record here and two in `getPaginatedEarthquakeData` |

## Left out

- The REST controllers, Spring wiring, logging and console output are not modelled. They only call the operations above or print.
- Reading a file or URL is left out. A source is either a loaded `Document` or `LoadFailed`; which one depends on I/O.
- `dumpCSV`, `createCSV` and `findLargestEarthQuakes` are not modelled. They format and print.
- `DifferentSorters`, the test code and the legacy model are not modelled. They are drivers, not part of the query engine.
- `LongitudeLatitudeParser` and the `ElementParser` interface are not modelled. The point reader of the three parsers is modelled directly.
- The second XML parse inside the date reader is abstracted. The `Summary` datatype records only what the reader takes from it: whether it is well-formed, whether it has a `dl`, and the text of the first `dd`, with each `&deg;` entity of the summary kept as a piece of its own so that each reader can replace it its own way.
- `getElementsByTagName` searches the whole subtree. The model reads the first matching sub-element of an entry, and assumes that entries are not nested in one another.
- Double arithmetic, NaN and `Double.parseDouble`'s accepted syntax are not modelled: the parser is a parameter. Neither is the great-circle distance of `Location.distanceTo`: it is a parameter too.
- Java `String` works on UTF-16 units; the model works on `char` sequences without surrogate handling.
- Null record fields other than id, date and link are not modelled. The parsers always set the others.
- Feed.EntriesSelects: the model assumes every `entry` element is a direct child of the root. `getElementsByTagName("entry")` also finds entries nested under another root child, which the root-children loop of `read` skips; a `Document` cannot hold such an entry. ParserManager.PageIsSliceOfRead, ParserManager.PageOfIsSlice, ParserManager.PagesCoverRead, ParserManager.PagesOfCoverAll, ParserManager.PageFailureMeansReadFailure, ParserManager.GetPaginatedEarthquakeData (its link to `read`) and ParserManager.ScanPage rely on this assumption.
- Client.FilterByDistanceFrom: a null list is not modelled; `quakeData.stream()` would throw NullPointerException. The list is a plain sequence.
- MagnitudeAnalyzer.GetLargest: a null list is not modelled; `new ArrayList<>(quakeData)` would throw NullPointerException.
- Filters.PhraseFilterDispatch: a null request kind is not modelled; `switch` on null would throw NullPointerException. Null titles and phrases are not modelled either.
- Quake.SetMyLocation, Quake.SetTitle, Quake.SetDepth, Quake.SetMagnitude, Quake.SetId, Quake.SetDateTime, Quake.SetLink: the Java setters change a shared object in place; the model returns a new value, so a change seen through another reference to the same record is not modelled.
- Pagination.Read: the 32-bit overflow of `pageNumber * pageSize` and of `(pageNumber + 1) * pageSize` is not modelled; both products are unbounded integers. In Java a wrapped product changes the window: with page 1 and size -1073741825, `(pageNumber + 1) * pageSize` wraps to 2147483646, the window runs from a negative start to the last child, and the source returns every entry where the model returns none.
- Pagination.PageLength: "at most `pageSize` records, none for a negative size" holds only without 32-bit overflow; with the input above the source returns the whole document for a negative size.
- ParserManager.GetPaginatedEarthquakeData: the 32-bit overflow of `pageNumber * pageSize` and `startIndex + pageSize` is not modelled; both are unbounded integers. With page 1 and size -1073741825, `startIndex + pageSize` wraps to 2147483646 and the source returns every entry where the model returns none.
- ParserManager.PageLength: "at most `pageSize` records, none for a negative size" holds only without 32-bit overflow; with the input above the source returns the whole list for a negative size.

## Findings

| source | as written | input that shows it | evidently intended | confidence | as-written member | corrected member |
|---|---|---|---|---|---|---|
| src/main/java/com/rest/earthquakeapi/service/QuakeMagnitudeAnalyzer.java:61-62 | the index of the largest is computed on the shrinking list, but the record is fetched from the untouched copy, so from the second round on it names the wrong record | magnitudes [5, 3, 4], howMany 2 gives [5, 3] | the two largest, [5, 4] | not executed | MagnitudeAnalyzer.GetLargestMissesSecondLargest | MagnitudeAnalyzer.TopLargestIsTop |
| src/main/java/com/rest/earthquakeapi/service/QuakeMagnitudeAnalyzer.java:61-63 | the same mismatch returns records out of order and repeats one | magnitudes [9, 7, 1, 8], howMany 3 gives [9, 1, 9] | [9, 8, 7], sorted by magnitude, each record once | not executed | MagnitudeAnalyzer.GetLargestUnsortedWithRepeat | MagnitudeAnalyzer.TopLargestIsTop |
| src/main/java/com/rest/earthquakeapi/service/QuakeMagnitudeAnalyzer.java:60-62 | the loop guard tests the copy, which never shrinks, so once the list is empty `indexOfLargest` gives -1 and `get(-1)` throws | one record, howMany 2, throws IndexOutOfBounds | the one record, as the documentation says for a short list | not executed | MagnitudeAnalyzer.GetLargestFailsWhenTooMany | MagnitudeAnalyzer.TopLargest |
