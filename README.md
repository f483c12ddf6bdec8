# chatSense core in Dafny

chatSense reads an exported WhatsApp group chat and shows statistics about it. This
project models the two files that do the work:

- `preprocessor.py` turns the raw export into a table of messages.
  1. It cuts the text at each timestamp and splits every block into a sender and a message.
  2. It cleans the timestamps, picks a year format (`get_year_format`) and a clock format,
     and parses the timestamps into dates.
  3. It drops the rows that fail to parse and the group notifications.
  4. It adds the emoji column (`extract_emojis`), the cleaned text (`clean_message`) and
     the "empty after cleaning" flag.
- `helper.py` answers queries on that table for one sender or for "Overall":
  - the counts of `fetch_stats`;
  - the five busiest senders of `most_busy_user`;
  - the first and last day of `start_end_date`, with `add_ordinal_suffix`;
  - the monthly and daily timelines;
  - the weekday and month activity counts;
  - the weekday-by-hour heat map;
  - the emoji table, emoji/no-emoji sizes and sentiment tally of `emoji_helper`;
  - the text given to the word cloud.

Modules follow the program's structure:

| module | holds |
|---|---|
| `Results` | `Option`, `Result`, dropping missing values |
| `Text` | the Python string built-ins the core relies on: `strip`, `split`, `title`, `str(int)` |
| `Counting` | `value_counts`, `groupby(...).count()`, `Counter.most_common`, `sort_values`, `unique` |
| `Tokenizer` | the timestamp pattern, `re.split`/`re.findall`, the sender split |
| `DateNormalizer` | timestamp cleaning, `get_year_format`, the clock format, `pd.to_datetime` with a fixed format, the Gregorian calendar |
| `TextFeatures` | `extract_emojis` and `clean_message` |
| `Preprocessor` | `preprocess` |
| `Helper` | every query of `helper.py` |

The loops of the source are methods with loop invariants, proved against specification
functions:
- the sender loop of `preprocess`;
- the word and link loops of `fetch_stats`;
- the label loop of `monthly_timeline`;
- the hour-bucket loop of `activity_heatmap`;
- the emoji and sentiment loops of `emoji_helper`.

The pandas and `re` steps between them are functions.

Three things the source calls into are parameters of the model:
- the emoji table of the `emoji` package (`emojiData`, a set of strings);
- URLExtract's `find_urls` (`findUrls`);
- the selected sender.

## Model

| member | source | states |
|---|---|---|
| Text.Strip | preprocessor.py:29 | the result neither starts nor ends with whitespace |
| Text.StripSlice | preprocessor.py:90 | `strip()` keeps a contiguous slice of the text and removes only whitespace on both sides |
| Text.StripUnchanged | preprocessor.py:90 | text that neither starts nor ends with whitespace is left unchanged |
| Text.BeforeFirst | preprocessor.py:6 | `split(c)[0]` is the longest prefix without `c`, and is followed by `c` when shorter than the text |
| Text.AfterLast | preprocessor.py:7 | `split(c)[-1]` is the longest suffix without `c`, and is preceded by `c` when shorter than the text |
| Text.Words | helper.py:30 | `split()` yields only non-empty words without whitespace |
| Text.WordsSplit | helper.py:30 | a whitespace character always separates words: the words of `a + c + b` are those of `a` followed by those of `b` |
| Text.WordsOfWord | helper.py:30 | a non-empty run without whitespace is exactly one word |
| Text.WordsAllSpace | helper.py:30 | there are no words exactly when the text is all whitespace |
| Text.WordsConsChar | helper.py:30 | a non-space character in front starts a new word before whitespace or at the end, and otherwise joins the first word |
| Text.WordsCount | helper.py:30 | the number of words is the number of places where a non-space character starts the text or follows whitespace |
| Text.WordsPadded | preprocessor.py:90 | whitespace around a text adds no words |
| Text.WordsStrip | preprocessor.py:90 | `strip()` does not change the words |
| Text.WordsOfJoin | preprocessor.py:90 | splitting words joined by single spaces gives the same words back |
| Text.WordsKeepNonSpace | helper.py:30 | the words, concatenated, are exactly the non-whitespace characters of the text, in order |
| Text.TitleFrom | preprocessor.py:29 | `title()` upper-cases a letter that starts a word, lower-cases any other letter, and leaves non-letters alone |
| Text.TitleIdempotent | preprocessor.py:29 | title-casing a title-cased name changes nothing |
| Text.TitleFirstNotLower | preprocessor.py:29 | a title-cased name never starts with a lower-case letter |
| Text.NatToString | helper.py:98 | `str(n)` is a non-empty string of digits that starts with `0` only for zero |
| Text.NatToStringRoundTrip | helper.py:98 | the digits of `str(n)` read back as `n` |
| Text.NatToStringInjective | helper.py:98 | distinct numbers print differently |
| Counting.Count | helper.py:113 | an occurrence count is positive exactly for values present |
| Counting.CountAppend | helper.py:113 | counts over a concatenation add up |
| Counting.Unique | helper.py:87 | `unique()` lists each value of the column exactly once |
| Counting.FirstIndex | helper.py:113 | the position of the first occurrence of a value, or the length when it does not occur |
| Counting.UniqueFirstOrder | helper.py:87 | `unique()` lists the values in the order of their first occurrence |
| Counting.Filter | helper.py:22-23 | a boolean mask keeps exactly the rows that satisfy it |
| Counting.FilterCount | helper.py:22-23 | a mask keeps every copy of a value it accepts and none of a value it rejects |
| Counting.SortBy | helper.py:127 | `sort_values` returns a permutation of the rows |
| Counting.InsertBySorted | helper.py:127 | inserting a row into sorted rows keeps them sorted |
| Counting.SortBySorted | helper.py:127 | the rows come out ordered by the key |
| Counting.SortByDistinct | helper.py:127 | sorting distinct rows keeps them distinct |
| Counting.SortByStable | helper.py:113 | the sort is stable: elements with equal keys keep their order |
| Counting.TotalCovers | helper.py:144 | counting over a list of distinct cells that covers every value accounts for every row |
| Counting.GroupCounts | helper.py:95 | `groupby(...).count()` has one row per distinct key, in key order; each count is the number of rows with that key; the counts add up to the number of rows |
| Counting.ValueCounts | helper.py:113 | `value_counts()` has one row per distinct value, with its number of occurrences, the most frequent first, and values with equal counts in the order of their first occurrence; the counts add up to the number of values |
| Counting.ValueCountsWithin | helper.py:113 | values drawn from a fixed list give at most that many rows, each keyed by a member of the list |
| Counting.TopRows | helper.py:43 | `head(n)` gives the first `min(n, rows)` rows of the count table, with their counts, still most frequent first and ties in order of first occurrence |
| Counting.TopRowsAreMostFrequent | helper.py:43 | a value left out of the top rows occurs no more often than any value listed |
| Tokenizer.RemoveNewlines | preprocessor.py:17 | no newline is left; every other character keeps its number of occurrences; what is left keeps its order (a subsequence of the text) |
| Tokenizer.YearDigits | preprocessor.py:20 | `(?:\d{2}\|\d{4}),` matches two or four digits followed by a comma |
| Tokenizer.HourDigits | preprocessor.py:20 | `\d{1,2}:` matches one or two digits followed by a colon, and a single digit before a colon is always found |
| Tokenizer.TailLength | preprocessor.py:20 | the optional narrow-no-break-space `am`/`pm` part, then whitespace and `-`, end the match |
| Tokenizer.MatchAt | preprocessor.py:20 | a timestamp match is at least 16 characters long and lies inside the text |
| Tokenizer.SplitCount | preprocessor.py:21-22 | the split yields one piece more than there are timestamps, so after dropping the first there is one body per timestamp |
| Tokenizer.SplitRoundTrip | preprocessor.py:21-22 | the discarded prefix, then each timestamp followed by its body, rebuilds the text exactly |
| Tokenizer.PrefixHasNoBoundary | preprocessor.py:21 | the discarded first piece contains no timestamp |
| Tokenizer.FirstColonSpace | preprocessor.py:27 | the non-greedy `([\w\W]+?):\s` stops at the first colon followed by whitespace, if there is one |
| Tokenizer.SplitSenderCases | preprocessor.py:27-33 | a block is a group notification exactly when no colon-and-whitespace follows its first character; a notification keeps its whole text; otherwise the sender is the stripped, title-cased text before the first such colon and the message is the text after its whitespace |
| Tokenizer.SendersAt | preprocessor.py:24-33 | entry `k` of both lists comes from block `k` |
| Tokenizer.Entries | preprocessor.py:17-36 | the table has one row per timestamp |
| DateNormalizer.TrimSeparatorCuts | preprocessor.py:39 | the first separator (whitespace, `-`, whitespace to the end) is cut off, and only it |
| DateNormalizer.TrimSeparatorKeeps | preprocessor.py:39 | a timestamp without the separator is left as it is |
| DateNormalizer.CleanShape | preprocessor.py:39 | a captured timestamp loses exactly its trailing whitespace and `-` |
| DateNormalizer.GetYearFormat | preprocessor.py:5-13 | `YY` exactly when the year field has two characters; `YYYY` exactly when it has four; otherwise the error names the date |
| DateNormalizer.MatchShape | preprocessor.py:20 | every captured timestamp is `DD/MM/`, the year digits and a comma, and ends in whitespace and `-` |
| DateNormalizer.BoundaryYearFormat | preprocessor.py:42-44 | the year format of a cleaned captured timestamp is given by the number of year digits the pattern matched |
| DateNormalizer.FindAllCaptured | preprocessor.py:22 | every timestamp `findall` returns has a two- or four-digit year |
| DateNormalizer.FindAllYearFormats | preprocessor.py:42-46 | `get_year_format` succeeds on every captured timestamp, so its error is never raised from `preprocess` |
| DateNormalizer.ChooseTimeFormat | preprocessor.py:49-52 | the 12-hour format is chosen exactly when some timestamp contains `am` or `pm` |
| DateNormalizer.DaysInMonth | preprocessor.py:61 | every month has 28 to 31 days; only February has fewer than 30, and it has 29 exactly in a leap year |
| DateNormalizer.DaysInYear | preprocessor.py:61 | the twelve months add up to 366 days in a leap year and 365 otherwise |
| DateNormalizer.TakeDigits | preprocessor.py:61 | a fixed-width numeric field consumes exactly its digits, and its value has at most that many digits |
| DateNormalizer.CenturyOf | preprocessor.py:56 | `%y` maps `yy` to the year in 1969-2068 that ends in `yy` |
| DateNormalizer.CenturyOfYear | preprocessor.py:56 | every year 1969-2068 is recovered from its last two digits |
| DateNormalizer.From12Hour | preprocessor.py:50 | `%I %p` gives an hour congruent mod 12 to the clock value, in the afternoon exactly for `pm` |
| DateNormalizer.From12HourInverse | preprocessor.py:50 | writing an hour on the 12-hour clock and reading it back gives the hour |
| DateNormalizer.ClockRoundTrip | preprocessor.py:50-52 | the clock suffix of either format reads back to the hour it was written for |
| DateNormalizer.ParseDate | preprocessor.py:56-58 | `%d/%m/%y,` reads a two-digit year below 100 |
| DateNormalizer.ParseTime | preprocessor.py:50-52 | the minute read is below 100 |
| DateNormalizer.ParseStamp | preprocessor.py:55-61 | a parsed timestamp is a real calendar day; with `%y` its year lies in 1969-2068 |
| DateNormalizer.DigitsValueConcat | preprocessor.py:61 | the value of concatenated digit strings is the first value shifted by the width of the second plus the second |
| DateNormalizer.ParseDateRoundTrip | preprocessor.py:55-58 | a date written as `DD/MM/YY,` or `DD/MM/YYYY,` reads back as its day, month and year digits |
| DateNormalizer.ParseTimeRoundTrip | preprocessor.py:49-52 | a time written in either clock format reads back as its hour and minute |
| DateNormalizer.ParseFormatRoundTrip | preprocessor.py:55-61 | every valid date and time, written in a chosen format, is parsed back to itself |
| DateNormalizer.Weekday | preprocessor.py:74 | the weekday is one of seven |
| DateNormalizer.NextDayNextWeekday | preprocessor.py:74 | within a month, the next day falls on the next weekday |
| DateNormalizer.NextMonthNextWeekday | preprocessor.py:74 | the first of a month falls on the weekday after the last day of the month before |
| DateNormalizer.NextYearNextWeekday | preprocessor.py:74 | 1 January falls on the weekday after 31 December of the year before |
| DateNormalizer.WeekdayAnchor | preprocessor.py:74 | 1 January 2023 is named Sunday |
| TextFeatures.ExtractEmojis | preprocessor.py:80-83 | the result is a subsequence of the text that holds only characters that are emojis on their own, each as many times as in the text |
| TextFeatures.ExtractEmojisOne | preprocessor.py:81 | one character gives itself when it is an emoji and nothing otherwise |
| TextFeatures.ExtractEmojisAppend | preprocessor.py:81 | the emojis of two texts put together are those of the first followed by those of the second |
| TextFeatures.LongestEmoji | preprocessor.py:87 | the emoji sequence found at a position is the longest one the table knows there |
| TextFeatures.Delete | preprocessor.py:88-89 | `re.sub(..., "")` only removes characters, never adds any, and keeps what is left in order |
| TextFeatures.Cut | preprocessor.py:88-89 | the scan cuts the text from left to right into single characters where no match starts and whole matches |
| TextFeatures.ScanCutDeletes | preprocessor.py:88-89 | a left-to-right cut joins back into the text, and its kept characters are what the deletion leaves |
| TextFeatures.DeleteIsCut | preprocessor.py:88-89 | `re.sub(p, "", s)` removes the leftmost non-overlapping matches: a left-to-right cut exists, and for every one the result is its kept characters |
| TextFeatures.CutDropsMatches | preprocessor.py:88-89 | every piece a left-to-right cut drops satisfies what every match of the pattern satisfies |
| TextFeatures.DeleteUnchanged | preprocessor.py:88-89 | the text is unchanged exactly when the pattern matches nowhere |
| TextFeatures.DeleteKeeps | preprocessor.py:88-89 | a character no match can contain keeps its number of occurrences |
| TextFeatures.DeleteKeptChars | preprocessor.py:88-89 | a property of every character outside the matches holds for every character of the result |
| TextFeatures.RemoveEmoji | preprocessor.py:87 | `replace_emoji` adds nothing, keeps what is left in order, and leaves no character that is an emoji on its own |
| TextFeatures.EmojisAndRestSplit | preprocessor.py:80-87 | the emoji column and the emoji-free text together use no more characters than the message |
| TextFeatures.MarkerFrom | preprocessor.py:88 | the alternation matches, up to ASCII letter case, exactly when one of the four markers starts there, and what it matches is one of them |
| TextFeatures.MarkerAt | preprocessor.py:88 | a match is one of the four markers up to ASCII letter case, and there is none exactly when no marker starts there |
| TextFeatures.MarkerMatchesAreMarkers | preprocessor.py:88 | every match of the alternation in a text is a marker |
| TextFeatures.RemoveMarkers | preprocessor.py:88 | removing the system markers adds nothing and keeps what is left in order |
| TextFeatures.RemoveMarkersCut | preprocessor.py:88 | the result is the kept characters of the left-to-right cut of the text into characters and whole markers, and every dropped piece is a marker |
| TextFeatures.RemoveMarkersNoRescan | preprocessor.py:88 | the text is scanned once: removing the `null` inside `nunullll` leaves `null` |
| TextFeatures.RemoveMarkersUnchanged | preprocessor.py:88 | the text is unchanged exactly when no marker occurs in it up to ASCII letter case |
| TextFeatures.UrlLength | preprocessor.py:89 | a link starts with `http` or `www`, holds no whitespace, and runs up to the next whitespace or the end of the text |
| TextFeatures.RemoveUrls | preprocessor.py:89 | removing links adds nothing, keeps what is left in order and every whitespace character, and leaves no link starting anywhere in the result |
| TextFeatures.RemoveUrlsUnchanged | preprocessor.py:89 | the text is unchanged exactly when no link starts anywhere in it |
| TextFeatures.CollapseSpaces | preprocessor.py:90 | every run of whitespace becomes one space: the only whitespace left is single spaces, the result starts and ends with whitespace exactly where the text does, and it has the same non-whitespace characters in order and the same words |
| TextFeatures.StripCollapsed | preprocessor.py:90 | stripping collapsed text leaves no space at either end, keeps single spaces and the non-whitespace characters |
| TextFeatures.SingleSpacedIsJoin | preprocessor.py:90 | a text with no space at either end and only single spaces inside is its words joined by single spaces |
| TextFeatures.NormalizeSpaces | preprocessor.py:90 | no leading, trailing or doubled space and no other whitespace; the non-whitespace characters are kept in order; the result is the words of the text joined by single spaces (`" ".join(s.split())`) |
| TextFeatures.CleanMessage | preprocessor.py:86-91 | the cleaned text is the words left once emojis, markers and links are deleted, joined by single spaces; so it has single spaces only inside it, and every other character comes from the message and is neither whitespace nor an emoji |
| TextFeatures.CleanMessageWords | preprocessor.py:86-91 | the words of the cleaned text are exactly the words of the message once emojis, markers and links are deleted |
| TextFeatures.EmptyAfterCleaning | preprocessor.py:91-94 | a message is empty after cleaning exactly when only whitespace is left once emojis, markers and links are removed |
| Preprocessor.CleanDates | preprocessor.py:39 | only the timestamp column is cleaned, row by row |
| Preprocessor.TableFormat | preprocessor.py:42-58 | an empty table is the "No messages found" error; otherwise the year format is the first timestamp's, and the 12-hour clock is chosen exactly when a timestamp has `am` or `pm` |
| Preprocessor.ParseEntry | preprocessor.py:61 | a row parses exactly when its timestamp does, and keeps its sender and message |
| Preprocessor.DropUnparsed | preprocessor.py:61-64 | `dropna` keeps exactly the rows whose timestamp parsed |
| Preprocessor.DropNotifications | preprocessor.py:77 | exactly the group notifications are dropped |
| Preprocessor.AddAllFeatures | preprocessor.py:83-94 | each row gets its emoji column, its cleaned text and its flag |
| Preprocessor.Bodies | preprocessor.py:17-21 | one body per timestamp |
| Preprocessor.SplitSenders | preprocessor.py:24-33 | the loop fills the sender and message lists as the split of each block dictates |
| Preprocessor.Preprocess | preprocessor.py:15-96 | the procedure builds exactly the table the step-by-step definition gives |
| Preprocessor.PreprocessFails | preprocessor.py:42-46 | `preprocess` fails exactly when the text has no timestamp, and then with "No messages found in the chat data." |
| Preprocessor.SendersTitleCased | preprocessor.py:29-33 | every sender is the notification sentinel or a title-cased name |
| Preprocessor.RowsFromEntries | preprocessor.py:61-77 | the rows kept are exactly those of entries whose timestamp parses and whose sender is not the sentinel |
| Preprocessor.PreprocessRows | preprocessor.py:15-96 | every row of the result has a real date, a title-cased sender other than the sentinel, and emoji, cleaned-text and flag columns consistent with its message; the rows are exactly those of the surviving entries |
| Preprocessor.RowsWellFormed | preprocessor.py:61-94 | rows built from entries whose senders are the sentinel or title-cased names are well formed |
| Preprocessor.RowsAppend | preprocessor.py:61-94 | the row-wise steps distribute over concatenation of the entries |
| Preprocessor.RowCount | preprocessor.py:21-77 | the result has at most one row per timestamp |
| Helper.Scope | helper.py:22-23 | "Overall" keeps every row; any other name keeps exactly that sender's rows |
| Helper.ScopeAppend | helper.py:22-23 | the selection keeps the table order |
| Helper.CollectWords | helper.py:28-30 | the loop gathers the words of every selected message, in order |
| Helper.CollectLinks | helper.py:36-38 | the loop gathers the links of every selected message, in order |
| Helper.FetchStats | helper.py:21-40 | the number of selected messages, of their words as `split()` gives them, of their `<Media omitted>` messages (never more than the messages) and of their links |
| Helper.AllWordsKeepText | helper.py:28-30 | the words counted are non-empty, hold no whitespace, and together are exactly the non-whitespace text of the messages |
| Helper.MostBusyUsers | helper.py:42-43 | the first five rows of the count table, or all when there are fewer: distinct senders, each with its number of messages, busiest first, senders with equal counts in order of their first message |
| Helper.MostBusyUsersAreBusiest | helper.py:43 | a sender left out sent no more messages than any sender listed |
| Helper.AddOrdinalSuffix | helper.py:77-82 | the day's digits followed by the two-letter suffix the day takes; the digits read back as the day |
| Helper.OrdinalSuffixEnglish | helper.py:77-82 | for days of a month, `st` for 1, 21 and 31; `nd` for 2 and 22; `rd` for 3 and 23; `th` otherwise |
| Helper.AddOrdinalSuffixInjective | helper.py:77-82 | distinct days are written differently |
| Helper.StartEndDate | helper.py:68-89 | for a non-empty selection, the long dates of its first and last rows and the number of distinct days, which lies between 1 and the number of rows |
| Helper.MonthlyTimeline | helper.py:92-101 | one row per month, counted as `groupby` does, and one `Month-Year` label per row |
| Helper.MonthLabelInjective | helper.py:98 | distinct months get distinct labels |
| Helper.GroupedMonthsOrdered | helper.py:95 | the month rows are in calendar order and carry distinct labels |
| Helper.MonthlyTimelineOrdered | helper.py:92-101 | the monthly timeline is in calendar order with distinct labels |
| Helper.DateOrderMonotone | helper.py:106 | the key used to order dates puts earlier days first |
| Helper.DailyTimeline | helper.py:103-107 | one row per day with messages, in calendar order, each with its number of messages; the counts add up to the selection |
| Helper.WeekActivityMap | helper.py:109-113 | one row for each weekday name that occurs in the selection and for no other, with its number of messages, busiest first, adding up to the selection |
| Helper.MonthActivityMap | helper.py:115-119 | one row for each month name that occurs in the selection and for no other, with its number of messages, busiest first, adding up to the selection |
| Helper.PeriodColumn | helper.py:129-135 | the loop gives every row the label of its hour bucket |
| Helper.PeriodLabelIsCategory | helper.py:129-142 | the label of hour `h` is the `h`-th category of the ordered list |
| Helper.PeriodLabelSplit | helper.py:129-135 | every label is the hour, a dash and the end of the bucket |
| Helper.PeriodLabelInjective | helper.py:129-135 | distinct hours get distinct labels |
| Helper.ActivityHeatmap | helper.py:121-145 | the rows are sorted by hour, each gets its bucket label, and the table counts the rows in each weekday and bucket cell |
| Helper.HeatKeysDistinct | helper.py:139-144 | the 168 weekday-by-bucket cells are distinct |
| Helper.CellsInHeatKeys | helper.py:139-144 | every row falls into one of those cells |
| Helper.HeatmapTotals | helper.py:121-145 | sorting reorders the selected rows without losing any, and the cell counts add up to the number of rows |
| Helper.SingleCharPairs | helper.py:160-181 | every entry kept is keyed by a single character |
| Helper.MultiCodePointKeysUnreachable | helper.py:160-186 | looking up one character gives the same sentiment whether or not the multi-code-point keys are in the table |
| Helper.SentimentCountsSum | helper.py:184-187 | positive, neutral and negative counts of a list of sentiments add up to its length |
| Helper.TallyByCounts | helper.py:184-187 | each tally is the number of emojis with that sentiment, and the three add up to the number of emojis |
| Helper.TallyCounts | helper.py:184-187 | the same, for the sentiment table of the source |
| Helper.CollectEmojis | helper.py:150-153 | the loop gathers the emoji characters of every selected row, in order |
| Helper.CountSentiments | helper.py:184-187 | the loop computes the sentiment tally |
| Helper.TopEmojis | helper.py:189 | the first 51 rows of the count table, or all when there are fewer: distinct emojis, each with its number of occurrences, most frequent first, emojis with equal counts in order of their first occurrence |
| Helper.EmojiHelper | helper.py:147-190 | the top-emoji table of the selection's emojis (ties in order of first occurrence), the sizes of the with-emoji and without-emoji groups, which add up to the selection, and the sentiment tally |
| Helper.EmojiRowsBound | helper.py:155-157 | no more messages have emojis than there are emojis |
| Helper.EmojiCharsValid | helper.py:150-153 | emoji columns of emoji characters give a list of emoji characters |
| Helper.EmojiSizes | helper.py:150-157 | on a table built by `preprocess`, the emoji list holds only emojis and is at least as long as the number of messages with emojis |
| Helper.WordCloudChars | helper.py:64 | on a table built by `preprocess`, the word-cloud text holds only spaces and characters of the messages that are neither whitespace nor emojis |
| Helper.WordCloudKeepsText | helper.py:64 | on a table built by `preprocess`, the word-cloud text loses only whitespace: its non-space characters are those of the messages once emojis, markers and links are deleted, in order |

## Left out

- `app.py` (the Streamlit page), `style_plot` and the chart drawing are presentation only and are not modelled.
- `create_wordcloud` draws an image from a mask file; only the text it joins (line 64) is modelled.
- TextFeatures.RemoveEmoji: the emoji table of the `emoji` package is a parameter (`emojiData`), and `replace_emoji` is modelled as deleting, left to right, the longest sequence of that table starting at each position. The package's own tokenizer is not reproduced: how it falls back to a shorter sequence and how it treats stray variation selectors (U+FE0E, U+FE0F) are not modelled, so "no character that is an emoji on its own is left" is a property of the model.
- URLExtract's `find_urls` is a parameter (`findUrls`), so the link count is stated in its terms.
- Helper.MostBusyUsers: the percentage table of line 44 (a division rounded to two decimals) is floating point and is not modelled.
- Counting.ValueCounts: rows with equal counts are kept in order of first occurrence, as `Counter.most_common` does, and the contract states it. pandas does not document an order for ties, so for `value_counts` the model fixes that one.
- Counting.SortBy: `sort_values` is modelled as a stable sort. pandas' default sort is not stable, but the bucket labels and cell counts depend only on the hours.
- Helper.ActivityHeatmap: the pivot table is modelled as a count for each of the 168 weekday-by-bucket cells. Which rows and columns pandas materialises, and the `fillna(0)` float type, are not modelled.
- DateNormalizer.ParseStamp: pandas can only represent years 1677-2262 at nanosecond precision and would drop rows outside that range; the model accepts any four-digit year.
- DateNormalizer.ParseStamp: day, month and minute are read as exactly two digits. `strptime` also accepts one digit, but the timestamp pattern only captures two.
- Text.IsSpace and the regular expressions: `\s`, `split()` and `strip()` use Python's whitespace set. Tokenizer.MatchAt reads `\d` as the ASCII digits 0-9 only. Python's `\d` also matches other Unicode decimal digits, so the source also splits at timestamps written with such digits and the model does not.
- Text.TitleFrom: `title()` is modelled for ASCII letters only. Python also changes the case of other Unicode letters, and it treats them as part of a word. In the model a non-ASCII letter breaks the word, so the next letter is upper-cased: the model turns "müller" into "MüLler", while Python gives "Müller". Tokenizer.SplitSenderCases and Preprocessor.SendersTitleCased inherit this for senders.
- TextFeatures.MarkerFrom: letter case is folded for ASCII only. Python's `re.IGNORECASE` also matches ı (U+0131) and İ (U+0130) to i and ſ (U+017F) to s, so `<medıa omitted>` is removed by the source but kept by the model. TextFeatures.MarkerAt and TextFeatures.RemoveMarkers inherit this.
- Helper.StartEndDate: on an empty selection the source raises at line 73. The model returns `None`, and its contract states when.
- Helper.MultiCodePointKeysUnreachable: five keys of the sentiment table are two or three code points long. Emojis are looked up one character at a time, so these keys never match; the model keeps this behaviour as written.

## Notes on the source

- The sender split (line 27) cuts at the first colon followed by any whitespace character, with at least one character before the colon. The model follows the code, which is wider than "colon then space".
- The timestamp pattern (line 20) accepts the `am`/`pm` marker only after a narrow no-break space (U+202F), and only in lower case. The model follows the code.
- The top-emoji table (line 189) keeps up to 51 rows (`[:51]`), not 50. The model follows the code.
- `get_year_format` raises on a year that is neither two nor four digits long. The pattern only captures such years, so `preprocess` never reaches that error (DateNormalizer.FindAllYearFormats).
