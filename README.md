# Exact-duration video matcher: the pure core

The script searches a video platform for videos whose length is exactly a
given number of minutes and seconds and ranks the matches by how "plain"
their ids look. Everything it does over the network is left out. This
project models, in Dafny, the deterministic part of the script:

- the search term `"<m> minutes <s> seconds"` (`Query.SearchQuery`, main.py:132) and the target duration built from `(minutes, seconds)` (`Query.TargetSeconds`, main.py:141);
- the id-to-duration dictionary and the exact-equality filter `filter_videos_by_duration` over it (`Durations.FilterByDuration`, main.py:88-95);
- the counters `num_upper_case` and `num_digits` (`Ranking.NumUpperCase`, `Ranking.NumDigits`, main.py:102-106) and the ranking in `get_best_video` (`Ranking.Rank`, main.py:110-117). Its key is the number of upper-case letters, then the number of digits, then the duration, ascending, with Python's stable `sorted`;
- steps 3 and 4 of `main`, which filter and then rank (`Pipeline.BestVideos`, main.py:140-147);
- the terminal helpers `bold`, `green` and `indent` (`Formatting.Bold`, `Formatting.Green`, `Formatting.Indent`, utils/formatting.py);
- the Wordle URL builder `get_url` (`Wordle.GetUrl`, more/wordle.py:4-5);
- shared decimal rendering and parsing, as `str(int)` and `%Y`/`%m`/`%d` produce them (`Decimal.IntToString`, `Decimal.ZeroPadded`, and their parsers in module `Decimal`), and an `Option` type (module `Wrappers`).

Modelling choices:

- A Python dict keeps insertion order, and that order reaches the output through the stable sort. So the dictionary is the sequence of its entries in insertion order, with no id twice (`IsDict`). `AsMap` gives its plain map view.
- Durations are whole seconds (`int`), not `timedelta`.
- Ids are treated as ASCII. `isupper` means `'A'..'Z'` and `isdigit` means `'0'..'9'`.
- `get_best_video` only prints its sorted list and returns `None`, although its docstring promises a tuple. `Rank` returns the sorted list of ids instead, because that list is what the function produces.
- `sorted(..., key=...)` computes each key once and then sorts. The model does the same: `Decorate` pairs each entry with its key, and `SortByKey` is a stable insertion sort on the pairs.
- Stability is stated as follows: for every key, the elements with that key appear in the output in the same order as in the input (`StableWrt`). `SortedStableUnique` shows that "sorted" plus "stable" determine the output completely.
- `get_url` covers valid Gregorian dates with years 1000 to 9999. These are the dates `datetime.date` accepts and `%Y` renders as four digits on every platform.

## Model

| member | source | states |
|---|---|---|
| `Decimal.ParseIntToString` | main.py:132 | the decimal text of an int, as `str()` renders it (minus sign for negatives), parses back to that int |
| `Decimal.IntToStringInjective` | main.py:132 | distinct ints have distinct decimal texts |
| `Decimal.NatToString` | main.py:132 | the decimal text is non-empty, all digits, and starts with '0' only for zero (no leading zeros) |
| `Query.ParseSearchQueryRoundTrip` | main.py:132 | the query `"<m> minutes <s> seconds"` is parsed back to exactly `(m, s)` |
| `Query.SearchQueryInjective` | main.py:132 | distinct `(minutes, seconds)` pairs give distinct search queries |
| `Query.TargetSeconds` | main.py:141 | for 0 <= seconds < 60 the target splits back into the same minutes and seconds |
| `Query.TargetSecondsCarry` | main.py:141 | seconds of 60 or more carry into the minutes without changing the duration, as with `timedelta` |
| `Durations.FilterByDurationMembers` | main.py:88-95 | an entry is in the result iff it is in the input and its duration equals the target |
| `Durations.FilterByDurationEmpty` | main.py:94 | the result is empty iff no duration equals the target |
| `Durations.FilterByDurationIsDict` | main.py:94 | the filtered result is again a dictionary (no id twice) |
| `Durations.FilterByDurationAsMap` | main.py:94 | as a map, the result is exactly the dict comprehension: the ids whose duration equals the target, each with its own duration |
| `Durations.FilterByDurationExcludesNeighbours` | main.py:94 | an id whose duration is one second above or below the target is not in the result |
| `Durations.FilterByDurationConcat` | main.py:94 | filtering splits over concatenation, so kept entries keep their insertion order |
| `Durations.FilterByDurationIdempotent` | main.py:94 | filtering twice with the same target equals filtering once |
| `Ranking.CountWherePositions` | main.py:102-106 | the counters `num_upper_case`/`num_digits` equal the number of positions whose character satisfies the predicate |
| `Ranking.CountWhereConcat` | main.py:102-106 | the count over a concatenation is the sum of the counts of the parts |
| `Ranking.UpperAndDigitsBound` | main.py:102-106 | upper-case count plus digit count is at most the length of the id |
| `Ranking.KeyLeTotalOrder` | main.py:112-116 | lexicographic order on `(upper, digits, duration)` is reflexive, antisymmetric, transitive and total |
| `Ranking.Insert` | main.py:110-117 | insertion adds exactly one element to the multiset |
| `Ranking.InsertSorted` | main.py:110-117 | inserting into a sorted sequence keeps it sorted by the key tuple |
| `Ranking.SortByKey` | main.py:110-117 | the sorted sequence is a permutation of the input and is non-decreasing by the key tuple |
| `Ranking.InsertStable` | main.py:110-117 | insertion never moves an element past one with an equal key |
| `Ranking.SortByKeyStable` | main.py:110-117 | the sort is stable: for every key, elements with that key keep their input order |
| `Ranking.SortedStableUnique` | main.py:110-117 | two sequences that are sorted and stable with respect to each other are equal, so the sort's result is fully determined |
| `Ranking.RankIsPermutation` | main.py:110-111 | the ranked ids are a permutation of `durations.keys()`, each id appearing exactly once |
| `Ranking.RankMembers` | main.py:110-111 | an id is ranked iff it is a key of the dictionary |
| `Ranking.RankSorted` | main.py:110-117 | the ranked ids are non-decreasing under `(num_upper_case(id), num_digits(id), durations[id])` |
| `Ranking.RankStable` | main.py:110-117 | ids with equal key tuples keep their dictionary order |
| `Pipeline.BestVideosAreExactMatches` | main.py:140-147 | after filtering and ranking, an id is listed iff its duration is exactly `60*minutes + seconds` seconds, and no id is listed twice |
| `Pipeline.BestVideosOrder` | main.py:140-147 | the survivors are ordered by upper-case count, then digit count |
| `Pipeline.RankExample` | main.py:110-117 | ids with keys (2,1,60 s), (0,3,60 s), (0,3,30 s) rank as third, second, first |
| `Pipeline.EndToEndExample` | main.py:140-147 | target 20:22 with durations 20:22, 20:23, 20:22 keeps the two 20:22 ids, ranked by their keys |
| `Formatting.Wrap` | utils/formatting.py:3 | the wrapped text is the SGR prefix, then the text, then the reset sequence, with the matching length |
| `Formatting.WrapUnwrap` | utils/formatting.py:3 | any text the unwrapper accepts is the wrapping of what it returns |
| `Formatting.Bold` | utils/formatting.py:1-3 | `bold(t)` is `ESC [ 1 m`, then t, then `ESC [ 0 m`, with length len(t) + 8 |
| `Formatting.Green` | utils/formatting.py:6-8 | `green(t)` is `ESC [ 3 2 m`, then t, then `ESC [ 0 m`, with length len(t) + 9 |
| `Formatting.BoldRoundTrip` | utils/formatting.py:3 | stripping the bold prefix and the reset suffix recovers t |
| `Formatting.GreenRoundTrip` | utils/formatting.py:8 | stripping the green prefix and the reset suffix recovers t |
| `Formatting.BoldInjective` | utils/formatting.py:3 | `bold` is injective |
| `Formatting.GreenInjective` | utils/formatting.py:8 | `green` is injective |
| `Formatting.BoldIsNotGreen` | utils/formatting.py:1-8 | no bold text equals a green text |
| `Formatting.Tabs` | utils/formatting.py:13 | `"\t" * n` is n tabs for n > 0 and empty for n <= 0 |
| `Formatting.Indent` | utils/formatting.py:11-13 | for n >= 0 the result is n tabs followed by the text (length n + len(text)); for n <= 0 it is the text |
| `Formatting.IndentDefault` | utils/formatting.py:11 | the default indentation is one tab |
| `Formatting.IndentTwice` | utils/formatting.py:13 | for a, b >= 0, indenting by a and then by b equals indenting by a + b |
| `Wordle.IsoDate` | more/wordle.py:5 | the date text is 4 year digits, '-', 2 month digits, '-', 2 day digits, and the fields read back as year, month and day |
| `Wordle.GetUrl` | more/wordle.py:4-5 | the URL starts with the fixed prefix, ends with ".json", holds the ISO date between them, and has constant length |
| `Wordle.ParseUrl` | more/wordle.py:5 | whatever the parser returns is a valid date |
| `Wordle.ParseGetUrl` | more/wordle.py:4-5 | the date is parsed back from its URL |
| `Wordle.GetUrlParse` | more/wordle.py:4-5 | every URL the parser accepts is the URL of the date it returns |
| `Wordle.GetUrlInjective` | more/wordle.py:4-5 | distinct dates give distinct URLs |
| `Decimal.ParseZeroPadded` | more/wordle.py:5 | a zero-padded field parses back to its number |
| `Decimal.ZeroPaddedParse` | more/wordle.py:5 | a digit string is the zero-padded rendering of its value at its own width |

## Left out

- `search_videos` (main.py:17-57): an HTTP pagination client. On a non-OK status it retries the same page forever, with no attempt cap. `max_total` is not a hard cap either, because whole pages are appended.
- `get_video_durations` (main.py:60-86): a network call that may end the process with `sys.exit`. It also parses ISO 8601 durations with a foreign library. The model takes its result, the id-to-seconds dictionary, as input.
- `main`'s printing, `load_dotenv` and the `API_KEY` environment read (main.py:10, main.py:14, main.py:122-147): I/O and configuration. Only the query, the target and the filter-then-rank steps are modelled.
- The `print` in `get_best_video` (main.py:118): output only. `Rank` returns the sorted list instead of `None`.
- `timedelta` details: sub-second durations, and the calendar `Duration` objects the duration parser returns for year or month components. Durations are whole seconds.
- Decimal.ParseIntToString: `IntToString`, and so `Query.SearchQuery`, renders every int, while `str()` and f-string conversion (main.py:132) raise ValueError for ints of more than 4300 digits under Python's default `int_max_str_digits`; that error path is not modelled.
- Query.TargetSeconds: durations are unbounded ints, while `timedelta` (main.py:141) raises OverflowError beyond 999999999 days in either direction; the same holds for the durations in the dictionary, so that error path is not modelled.
- Ranking.NumUpperCase: models `str.isupper` on ASCII only; non-ASCII upper-case letters are not counted.
- Ranking.NumDigits: models `str.isdigit` on ASCII only; other Unicode digits are not counted.
- Formatting.Bold: takes strings only; the source formats any object through `format`.
- Formatting.Green: takes strings only; the source converts any object with `str()`.
- Wordle.GetUrl: covers years 1000 to 9999 only, because `%Y` pads smaller years differently on different platforms.
- Wordle.IsoDate: covers years 1000 to 9999 only (it requires a valid date in that range), for the same reason as `Wordle.GetUrl`.
- `main` in more/wordle.py (more/wordle.py:7-10): a network fetch using today's date.
