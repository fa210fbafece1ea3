# Golden Raspberry Awards: loading the nominee list and the producer-interval report

This project models the two pieces of the Golden Raspberry Awards service that hold real logic:

- **Loading the awards list.** `DataLoader.readMoviesFromCSV` reads a delimiter-separated file. The first line is a header. Each later line is split by `parseCSVLine`:
  - a quote character toggles an "inside quotes" flag and is dropped;
  - the first character of the configured delimiter closes a field when outside quotes;
  - every field is trimmed.

  A line becomes a movie when it is not blank, has at least five fields, and its first field is an `int`:
  - the title and studios are fields 1 and 2, trimmed;
  - the producers come from field 3, split by `parseProducers` on the regular expression `(,| and )\s*`;
  - the winner flag is set when field 4 equals "yes", ignoring case.

  Any other line is skipped without stopping the load. In a line such as `1990;"Studio; with semicolon";X;Prod;yes` the quoted field is value 1, which `readMoviesFromCSV` stores as the title, not the studios. The quoted field is read whole, semicolon included (`SplitJoinedCells`).
- **The producer-interval report.** `ProducerIntervalService.getProducersIntervals` works as follows:
  1. It groups the winning movies' years by producer in a `HashMap`.
  2. For each producer it sorts the years and emits one entry per pair of consecutive years. Each entry holds the producer, the earlier year, the later year and their difference.
  3. It returns the entries with the smallest difference and those with the largest. If there is no entry, both lists are empty.

## Layout

- `Wrappers.dfy`: the `Option` type.
- `JavaText.dfy`: the Java library behaviour the core relies on:
  - `int` arithmetic (`Sub32`);
  - `String.trim` (`Trim`);
  - the regular-expression class `\s`;
  - `Integer.parseInt` and `Integer.toString` (`ParseInt`, `ShowInt`);
  - `String.equalsIgnoreCase`.
- `Model.dfy`: `Movie`, `ProducerIntervalDto`, `ProducerIntervalResponse`.
- `DataLoader.dfy`:
  - `parseCSVLine` as the method `ParseCsvLine`, specified by the functional scanner `Scan`/`SplitLine`;
  - `parseProducers` as `ParseProducers`;
  - the loop of `readMoviesFromCSV` as the method `ReadMoviesFromCsv`, specified by `LoadMovies`;
  - `ConvertRow` says what one line becomes: a blank line, too few fields, a malformed year, or a movie.
- `ProducerIntervalService.dfy`:
  - the grouping loop is the method `GroupWins`, specified by `GroupBy`;
  - the per-producer loop is the methods `CollectIntervals` and `AppendPairs`, specified by `EntriesInOrder` and `Pairs`;
  - the whole service is `GetProducersIntervals`, specified by `Report`.

  The `HashMap` visiting order is left open. `CollectIntervals` promises its list for *some* order of the keys, and every property of the report is proved for every order.

## Model

| member | source | states |
|---|---|---|
| JavaText.Sub32 | src/main/java/br/com/outsera/golden_raspberry_awards/service/ProducerIntervalService.java:51 | `followingWin - previousWin` in `int` arithmetic: the true difference whenever it lies in the `int` range (negative ones included), 2^32 less when it is above the range and 2^32 more when it is below |
| JavaText.Trim | src/main/java/br/com/outsera/golden_raspberry_awards/config/DataLoader.java:109 | `trim()` returns a string with no character ≤ U+0020 at either end, and leaves an already trimmed string unchanged |
| JavaText.TrimPiece | src/main/java/br/com/outsera/golden_raspberry_awards/config/DataLoader.java:109 | the trimmed string is a contiguous piece of the input, and everything dropped before and after it is a character ≤ U+0020 |
| JavaText.TrimKeepsVisibleStart | src/main/java/br/com/outsera/golden_raspberry_awards/config/DataLoader.java:67 | a line whose first character is visible is not blank after `trim()` and still starts with that character |
| JavaText.TrimKeepsCharacters | src/main/java/br/com/outsera/golden_raspberry_awards/config/DataLoader.java:128 | `trim()` introduces no character that was not in its input |
| JavaText.ParseInt | src/main/java/br/com/outsera/golden_raspberry_awards/config/DataLoader.java:77 | `Integer.parseInt` accepts only an optional `-`/`+` followed by decimal digits |
| JavaText.ParseShowRoundTrip | src/main/java/br/com/outsera/golden_raspberry_awards/config/DataLoader.java:77 | `parseInt` reads back every `int` as `Integer.toString` writes it, negative ones included |
| JavaText.YesIgnoringCase | src/main/java/br/com/outsera/golden_raspberry_awards/config/DataLoader.java:81 | `"yes".equalsIgnoreCase(t)` holds exactly for the eight upper/lower-case spellings of "yes" |
| DataLoader.ParseCsvLine | src/main/java/br/com/outsera/golden_raspberry_awards/config/DataLoader.java:93-122 | the character loop returns exactly the fields of the functional scanner `SplitLine` |
| DataLoader.ScanCounts | src/main/java/br/com/outsera/golden_raspberry_awards/config/DataLoader.java:101-116 | after any prefix, the scanner is inside quotes iff it has met an odd number of quote characters, and it has closed one field per delimiter met outside quotes |
| DataLoader.SplitLineFieldCount | src/main/java/br/com/outsera/golden_raspberry_awards/config/DataLoader.java:93-122 | a line yields one more value than it has delimiters outside quotes |
| DataLoader.SplitLineFieldsClean | src/main/java/br/com/outsera/golden_raspberry_awards/config/DataLoader.java:103-118 | every value is trimmed and contains no quote character |
| DataLoader.SplitJoinedCells | src/main/java/br/com/outsera/golden_raspberry_awards/config/DataLoader.java:93-122 | a line written from trimmed, quote-free fields, bare or quoted and joined by the delimiter, splits back into exactly those fields; a quoted field may hold the delimiter |
| DataLoader.RegexSplit | src/main/java/br/com/outsera/golden_raspberry_awards/config/DataLoader.java:24 | `split("(,\| and )\\s*")` yields at least one piece, and no piece contains a separator; `SplitWithoutSeparator` and `SplitAtFirstSeparator` fix which pieces |
| DataLoader.ParseProducers | src/main/java/br/com/outsera/golden_raspberry_awards/config/DataLoader.java:125-131 | every producer name is non-empty, trimmed, and contains neither a comma nor " and " |
| DataLoader.ParseJoinedNames | src/main/java/br/com/outsera/golden_raspberry_awards/config/DataLoader.java:125-131 | round trip: names written as "A, B and C" are split back into exactly those names, in order |
| DataLoader.ExampleProducers | src/main/java/br/com/outsera/golden_raspberry_awards/config/DataLoader.java:125-131 | "Producer A and Producer B" gives ["Producer A", "Producer B"] |
| DataLoader.SplitWithoutSeparator | src/main/java/br/com/outsera/golden_raspberry_awards/config/DataLoader.java:24 | a text in which the pattern never matches comes back as a single piece, unchanged |
| DataLoader.SplitAtFirstSeparator | src/main/java/br/com/outsera/golden_raspberry_awards/config/DataLoader.java:24 | the split cuts at the leftmost match: the text before it is the first piece, and splitting resumes after the separator and all the `\s` that follows it |
| DataLoader.ExampleIrregularSeparators | src/main/java/br/com/outsera/golden_raspberry_awards/config/DataLoader.java:125-131 | "A,B and  C", with no space after the comma and two after "and", gives ["A", "B", "C"] |
| DataLoader.NoAndWithoutN | src/main/java/br/com/outsera/golden_raspberry_awards/config/DataLoader.java:24 | a text with no comma and no letter n contains no separator, so the producer regex does not split it |
| DataLoader.LoadMovies | src/main/java/br/com/outsera/golden_raspberry_awards/config/DataLoader.java:57-64 | an empty file or a header alone gives no movie, and each line after the header gives at most one |
| DataLoader.ReadRow | src/main/java/br/com/outsera/golden_raspberry_awards/config/DataLoader.java:67-86 | one turn of the loop adds a movie exactly when the line reads as one, and it adds that movie |
| DataLoader.ReadMoviesFromCsv | src/main/java/br/com/outsera/golden_raspberry_awards/config/DataLoader.java:51-90 | the loop returns exactly `LoadMovies`: the header skipped, then the movie of every line that reads as one, in file order |
| DataLoader.LoadStep | src/main/java/br/com/outsera/golden_raspberry_awards/config/DataLoader.java:64-87 | one more line adds exactly what its outcome keeps |
| DataLoader.SkippedRowIsolated | src/main/java/br/com/outsera/golden_raspberry_awards/config/DataLoader.java:67-85 | a blank, short or malformed line after the header can be removed without changing the loaded list |
| DataLoader.LoadMoviesMembership | src/main/java/br/com/outsera/golden_raspberry_awards/config/DataLoader.java:64-87 | a movie is loaded iff some line after the header reads as that movie |
| DataLoader.LoadedFromLine | src/main/java/br/com/outsera/golden_raspberry_awards/config/DataLoader.java:64-87 | every line after the header that reads as a movie contributes it |
| DataLoader.LineOfLoaded | src/main/java/br/com/outsera/golden_raspberry_awards/config/DataLoader.java:64-87 | every loaded movie comes from a line after the header |
| DataLoader.AcceptedMembership | src/main/java/br/com/outsera/golden_raspberry_awards/config/DataLoader.java:82 | a movie is kept iff some row was parsed into it |
| DataLoader.ParsedRowFacts | src/main/java/br/com/outsera/golden_raspberry_awards/config/DataLoader.java:67-82 | a movie read from a line means the line was not blank and had at least four delimiters outside quotes. The year is `parseInt` of the first value. Title and studios are the next two values and hold no quote. The producers are exactly `parseProducers` of the fourth value, all clean names. The movie is a winner iff the fifth value is a spelling of "yes" |
| DataLoader.FormatRowValues | src/main/java/br/com/outsera/golden_raspberry_awards/config/DataLoader.java:72 | the line written for a movie splits into exactly its five fields |
| DataLoader.RowRoundTrip | src/main/java/br/com/outsera/golden_raspberry_awards/config/DataLoader.java:72-82 | round trip: the line written for a movie reads back as that same movie |
| DataLoader.LoadRoundTrip | src/main/java/br/com/outsera/golden_raspberry_awards/config/DataLoader.java:51-90 | round trip: a header followed by the lines of some movies loads exactly those movies, in order |
| ProducerIntervalService.GroupWins | src/main/java/br/com/outsera/golden_raspberry_awards/service/ProducerIntervalService.java:25-33 | the nested loop with `computeIfAbsent(...).add(year)` builds exactly the map `GroupBy` |
| ProducerIntervalService.GroupByYears | src/main/java/br/com/outsera/golden_raspberry_awards/service/ProducerIntervalService.java:25-33 | the map has a key exactly for each producer some winner lists. The key holds that producer's win years, once per listing, in winner order. A producer without a key has no win |
| ProducerIntervalService.SortYears | src/main/java/br/com/outsera/golden_raspberry_awards/service/ProducerIntervalService.java:41 | `sorted()` returns the same years (as a multiset) in ascending order |
| ProducerIntervalService.SortYearsKeeps | src/main/java/br/com/outsera/golden_raspberry_awards/service/ProducerIntervalService.java:41 | sorting keeps the number of years and which years occur |
| ProducerIntervalService.SortedIsUnique | src/main/java/br/com/outsera/golden_raspberry_awards/service/ProducerIntervalService.java:41 | two ascending lists with the same multiset are equal, so `SortYears` agrees with any correct sort |
| ProducerIntervalService.Pairs | src/main/java/br/com/outsera/golden_raspberry_awards/service/ProducerIntervalService.java:43-60 | a producer with n ≥ 2 sorted years gives n - 1 entries, and one with fewer gives none |
| ProducerIntervalService.PairFacts | src/main/java/br/com/outsera/golden_raspberry_awards/service/ProducerIntervalService.java:45-58 | each entry belongs to its producer and pairs two of its years, earlier first, with none of its years strictly between. The interval is their `int` difference, the true difference whenever that fits |
| ProducerIntervalService.PairsComplete | src/main/java/br/com/outsera/golden_raspberry_awards/service/ProducerIntervalService.java:45-58 | every two consecutive sorted years give an entry |
| ProducerIntervalService.AppendPairs | src/main/java/br/com/outsera/golden_raspberry_awards/service/ProducerIntervalService.java:43-60 | the inner loop appends exactly `Pairs` of the sorted years to the list |
| ProducerIntervalService.CollectIntervals | src/main/java/br/com/outsera/golden_raspberry_awards/service/ProducerIntervalService.java:38-61 | the loop over `entrySet()` returns each producer's entries one producer after another, in some order that visits every key once |
| ProducerIntervalService.EntriesInOrderMembership | src/main/java/br/com/outsera/golden_raspberry_awards/service/ProducerIntervalService.java:38-61 | an entry is collected iff its producer was visited and the entry is among that producer's entries |
| ProducerIntervalService.OfMembership | src/main/java/br/com/outsera/golden_raspberry_awards/service/ProducerIntervalService.java:38-61 | the entries of one producer taken from a list are exactly the list's entries naming that producer |
| ProducerIntervalService.OfConcat | src/main/java/br/com/outsera/golden_raspberry_awards/service/ProducerIntervalService.java:38-61 | a producer's entries of a list made of two parts are its entries of the first part followed by those of the second |
| ProducerIntervalService.OfOrder | src/main/java/br/com/outsera/golden_raspberry_awards/service/ProducerIntervalService.java:38-61 | whatever the visiting order, the collected list holds a visited producer's entries as one block, exactly its own entries in order, and none of a producer not visited |
| ProducerIntervalService.EntriesOfProducer | src/main/java/br/com/outsera/golden_raspberry_awards/service/ProducerIntervalService.java:25-61 | a producer listed by k ≥ 2 winners gets exactly k - 1 entries, its consecutive sorted win years in order, and a producer listed once or never gets none, for every map order |
| ProducerIntervalService.MinInterval | src/main/java/br/com/outsera/golden_raspberry_awards/service/ProducerIntervalService.java:71-74 | `min()` is attained by some entry and is no larger than any entry's interval |
| ProducerIntervalService.MaxInterval | src/main/java/br/com/outsera/golden_raspberry_awards/service/ProducerIntervalService.java:77-80 | `max()` is attained by some entry and is no smaller than any entry's interval |
| ProducerIntervalService.WithInterval | src/main/java/br/com/outsera/golden_raspberry_awards/service/ProducerIntervalService.java:83-90 | the filter keeps exactly the entries with the given interval |
| ProducerIntervalService.WithIntervalCounts | src/main/java/br/com/outsera/golden_raspberry_awards/service/ProducerIntervalService.java:83-90 | the filter keeps each matching entry as many times as it occurs, and no other entry |
| ProducerIntervalService.WithIntervalInOrder | src/main/java/br/com/outsera/golden_raspberry_awards/service/ProducerIntervalService.java:83-90 | `filter(...).toList()` keeps the matching entries in stream order: the result is a subsequence of the entries |
| ProducerIntervalService.WithIntervalConcat | src/main/java/br/com/outsera/golden_raspberry_awards/service/ProducerIntervalService.java:83-90 | filtering a list is filtering its first part and then its second, so no entry moves ahead of an earlier one |
| ProducerIntervalService.ReportEmpty | src/main/java/br/com/outsera/golden_raspberry_awards/service/ProducerIntervalService.java:66-68 | both lists of the response are empty iff there is no entry |
| ProducerIntervalService.ReportMin | src/main/java/br/com/outsera/golden_raspberry_awards/service/ProducerIntervalService.java:71-85 | `min` holds exactly the entries no other entry undercuts, ties included, each as often as it occurs, in the order of the entries |
| ProducerIntervalService.ReportMax | src/main/java/br/com/outsera/golden_raspberry_awards/service/ProducerIntervalService.java:77-90 | `max` holds exactly the entries no other entry exceeds, ties included, each as often as it occurs, in the order of the entries |
| ProducerIntervalService.ReportAllEqual | src/main/java/br/com/outsera/golden_raspberry_awards/service/ProducerIntervalService.java:71-94 | when all intervals are equal, `min` and `max` are both the whole list |
| ProducerIntervalService.GetProducersIntervals | src/main/java/br/com/outsera/golden_raspberry_awards/service/ProducerIntervalService.java:20-95 | the service returns the report of the grouped, sorted and paired entries, for some visiting order of the map |
| ProducerIntervalService.EntryOfWinners | src/main/java/br/com/outsera/golden_raspberry_awards/service/ProducerIntervalService.java:25-61 | each entry names a producer listed by some winner and pairs two of that producer's win years, with no win of theirs strictly between. The interval is the `int` difference |
| ProducerIntervalService.WinnersComplete | src/main/java/br/com/outsera/golden_raspberry_awards/service/ProducerIntervalService.java:25-61 | every two consecutive win years of every producer give an entry, whatever the map's order |
| ProducerIntervalService.NoIntervals | src/main/java/br/com/outsera/golden_raspberry_awards/service/ProducerIntervalService.java:66-68 | both lists are empty iff no producer has two wins |
| ProducerIntervalService.NoWinnersNoIntervals | src/test/java/br/com/outsera/golden_raspberry_awards/controller/MovieControllerIT.java:145-153 | with no winning movie, `min` and `max` are both empty |
| ProducerIntervalService.MinBelowEveryGap | src/main/java/br/com/outsera/golden_raspberry_awards/service/ProducerIntervalService.java:71-85 | an entry of `min` has an interval no larger than the gap between any producer's consecutive win years |
| ProducerIntervalService.MaxAboveEveryGap | src/main/java/br/com/outsera/golden_raspberry_awards/service/ProducerIntervalService.java:77-90 | an entry of `max` has an interval no smaller than the gap between any producer's consecutive win years |

## Left out

- **File and logging I/O.**
  - `loadData`, opening the resource and reading it with `BufferedReader` are not modelled. The file is given as its sequence of lines, so how `readLine` breaks lines at `\n`, `\r` or `\r\n` is not modelled.
  - A file with no line stands for `readLine` returning `null`.
  - The log calls are not modelled.
- **Collaborators.** The repository, `MovieService` (`saveAll`, `findAllWinners`), the controller and the JSON encoding are not part of this model. The service takes its list of winners as a parameter.
- **`HashMap` order.** The iteration order of the `HashMap` is not fixed by the model. Any order of the keys is allowed, and the report is proved correct for all of them.
- **Delimiter as one character.** The configured delimiter is taken as one character, its first one, so an empty delimiter string, which fails in `charAt(0)`, is not modelled.
- **Trailing empty strings of `split`.** Java's `String.split` drops them and the model keeps them. `parseProducers` filters out empty names afterwards, so the result is the same.
- **`Integer.parseInt`.** The model accepts ASCII digits only, while Java also accepts other Unicode decimal digits.
- **`equalsIgnoreCase`.** The model maps case for ASCII letters only. Java's full Unicode case mapping, such as `ſ` (U+017F) matching `s`, is not modelled.
- **Exceptions in the row `try` block.** Only `NumberFormatException` from `parseInt` can be raised there. It is modelled as the `MalformedYear` outcome. Other runtime failures of the JVM are not modelled.
- **Zero intervals.** The integration test at src/test/java/br/com/outsera/golden_raspberry_awards/controller/MovieControllerIT.java:117-122 expects positive intervals. The code gives interval 0 when a producer is listed twice for the same year, and the model keeps that behaviour: `PairFacts` proves `previousWin <= followingWin`, not strict inequality.
- **`Sub32` overflow.** An interval wraps around only when the two years are more than 2^31 - 1 apart, which needs negative years. The model computes the wrapped value exactly as Java does (`Sub32`). `PairFacts` states the plain difference `followingWin - previousWin` only when it fits.
