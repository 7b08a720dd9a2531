# PACER incremental case discovery, modelled in Dafny

`pacer.py` runs daily or weekly. Each run does the following:

- It asks the PACER Case Locator search service for the cases one court filed in a date window.
- It reads the results page by page and drops every case that was terminated on or after the day it was filed.
- It compares the remaining five-field records `[caseNumber, title, dateFiled, link, jurisdictionType]` with a history file of recently seen records.
- It sorts the unseen ones into "U.S. Criminal and Civil Cases" (the title names the United States as a party) and "Other Cases", and counts them.
- It appends the unseen records to the history file.
- It rewrites the history file sorted newest first, keeping only the records filed within the last fourteen days.

This project models that logic with the network, the files, the clock and the email lifted out. The result is pure functions and short loops over immutable sequences of records. Dates are proleptic-Gregorian day ordinals.

| file | module | models |
|---|---|---|
| `seqs.dfy` | `Seqs` | order-preserving filter and map, subsequences, `list.remove`, and the facts about them |
| `outcomes.dfy` | `Outcomes` | `Option`/`Result` and the ways a run can fail (no answer, an HTTP error status, an unreadable date) |
| `cases.dfy` | `Cases` | the five-field case record |
| `calendar.dfy` | `Calendar` | `strptime("%Y-%m-%d")`, day ordinals and weekdays, zero-padded `strftime` |
| `window.dfy` | `SearchWindow` | `parse_args` and `get_dates` |
| `case_search.dfy` | `CaseSearch` | the pagination loop of `search` and its per-row filter |
| `party_pattern.dfy` | `PartyPattern` | the title regular expression of `find_new_cases`, as a matcher |
| `detection.dfy` | `NewCaseDetection` | `find_new_cases` |
| `history.dfy` | `HistoryFile` | `add_to_history` and `clean_history` |

The search service is a sequence of responses: `responses[i]` is what the request for page `i` gets. A response is one of three things:

- `Answered`, with the page's `content`, its `pageInfo.totalPages` and its `receipt.searchFee`;
- `Refused`, carrying its HTTP status;
- `Unreachable`, standing for a request that raised.

A request for a page past the end of the sequence gets no answer. Where the program would exit (`sys.exit`, `SystemExit`, an uncaught `ValueError` from `strptime`), the model returns an error value instead: `Err(...)` or `None`.

## Model

| member | source | states |
|---|---|---|
| SearchWindow.ParseArgs | pacer.py:6-16 | "daily" as the first argument selects the daily mode and "weekly" the weekly mode. A missing argument or any other word is the usage error. Each of the three outcomes holds exactly when its condition on the arguments holds. |
| SearchWindow.GetDates | pacer.py:124-136 | The window ends today and always starts before today. It starts 7 days back in weekly mode. In daily mode it starts 4 days back on a Monday and 2 days back on any other day. The helper lemmas `Calendar.WeekdayPeriodic`, `Calendar.DaysBeforeMonday` and `SearchWindow.WeeklyWindowsChain` spell out the weekday arithmetic behind these offsets. |
| SearchWindow.PreviousWeekday | pacer.py:126-131 | The weekday before a weekday is earlier and is itself a weekday, with no weekday strictly between them. This is the day of the previous daily run. |
| SearchWindow.MondayWindowCoversWeekend | pacer.py:128-129 | A Monday's daily window contains the Sunday, Saturday and Friday before it, and those days really are Sunday, Saturday and Friday. |
| SearchWindow.DailyWindowsChain | pacer.py:126-131 | Daily runs on consecutive weekdays leave no filing day unsearched. Each window reaches back to the day before the previous run's day, weekend included. |
| SearchWindow.CalendarExample | pacer.py:128-131 | The ordinals match the real calendar: 2024-03-11 is a Monday and 2024-03-13 a Wednesday. A daily run on 2024-03-13 searches from 2024-03-11; one on 2024-03-11 searches from 2024-03-07. |
| Calendar.Weekday | pacer.py:128 | The weekday number of a day ordinal is in 0..6, with Monday as 0 and 0001-01-01 (day 1) a Monday, as `date.weekday` numbers days. The test `strftime("%a") == "Mon"` is `Weekday(today) == Monday`. `SearchWindow.CalendarExample` ties the numbering to the real calendar. |
| Calendar.Ordinal | pacer.py:129-134 | Defines the day number that `timedelta` arithmetic works on, as `date.toordinal` gives it: 0001-01-01 is day 1. It has no contract of its own; the next three rows state its properties. |
| Calendar.OrdinalWithinYear | pacer.py:129-134 | A date's number falls within its own year: after every day of the earlier years and no later than the year's last day. |
| Calendar.OrdinalOrder | pacer.py:217-220 | Comparing the day numbers of two dates is comparing the dates, year first, then month, then day. Two dates have the same number exactly when they are the same date. So the model's `>=` on numbers is the `term_date >= filed_date` comparison of the parsed dates. |
| Calendar.NextDayOrdinal | pacer.py:129-134 | The ordinal numbering has no gaps, across month ends, year ends and leap days. So `timedelta(days = n)` is subtraction of `n` from the ordinal. |
| Calendar.ParseDate | pacer.py:217-219 | Any date `strptime` accepts exists: year 1 to 9999, a real month, and a day within that month. |
| Calendar.YearText | pacer.py:136 | `%Y` writes a four-digit year as four digits that read back as the year. |
| Calendar.FormatDate | pacer.py:136 | `strftime("%Y-%m-%d")` writes ten characters: four digits that read as the year, a dash, two digits that read as the month, a dash and two digits that read as the day. So months and days below 10 get a leading zero. |
| Calendar.ParseFormatRoundTrip | pacer.py:136 | A zero-padded `%Y-%m-%d` date with a four-digit year is read back by `strptime` as the same date. |
| CaseSearch.HasTermDate | pacer.py:218 | Defines the truthiness test `case.get('dateTermed')`: the field is present, not null, and not the empty string. It has no contract of its own. `CaseSearch.ReadRow` states how the test is used. |
| CaseSearch.ToCase | pacer.py:222 | Defines the record built from a kept row, with its fields in the order `[caseNumberFull, caseTitle, dateFiled, caseLink, jurisdictionType]`. It has no contract of its own; `CaseSearch.ReadRow` and `CaseSearch.CasesOfPagesMembers` state when it is applied. |
| CaseSearch.ReadRow | pacer.py:215-222 | A row is read exactly when its filing date, and its termination date if it has one, parse. A row is kept exactly when it was not terminated on or after filing. A kept row becomes the record `[caseNumberFull, caseTitle, dateFiled, caseLink, jurisdictionType]`. A read failure is a bad date. |
| CaseSearch.ReadRows | pacer.py:215-222 | A page is read exactly when every row's dates parse. Its records are then the open rows mapped to records, in the service's order. |
| CaseSearch.Search | pacer.py:189-227 | At least one page is requested. Pages 0, 1, 2, ... are requested in turn, and the run continues after page `i` exactly when page `i` was read and reported more than `i + 1` pages. On success, the last page reported no more pages than were requested. The cases are then every page's open rows, page by page. The cost is the sum of the fees. A missing answer, a refused request or a bad date on the last requested page is reported as that error. |
| CaseSearch.CasesOfPagesMembers | pacer.py:215-222 | A record is in the search result exactly when some open row of a read page maps to it. No record terminated at filing ever appears, and every open row does. |
| CaseSearch.TwoPageExample | pacer.py:196-225 | Two pages of one open case each, each page reporting two pages and costing 10 cents: the loop continues after page 0 and stops after page 1. It returns both cases in page order and costs 20 cents. |
| PartyPattern.MatchAt | pacer.py:81-82 | Defines a match of the case-insensitive pattern starting at one position of the title. There is a word boundary there. Then some prefix spells a party name (`USA`, `U.S.A.` with each dot optional, `United States` or `United States of America` with white space between words), followed by a word boundary. Then come optional white space, a `v` with an optional dot, optional white space and a word boundary. It has no contract of its own; the lemmas below state what it accepts and rejects. |
| PartyPattern.IsUSParty | pacer.py:87 | Defines `pattern.search(case[1])` succeeding: the pattern matches at some position of the title, the end position included. It has no contract of its own; the lemmas below state what it accepts and rejects. |
| PartyPattern.MatchFromParts | pacer.py:80-83 | A word-bounded party name, white space, `v` with an optional dot, and white space up to a word boundary anywhere in the title make it a government case. |
| PartyPattern.UsaVersusMatches | pacer.py:80-83 | "USA v. John Doe" matches. |
| PartyPattern.UnitedStatesVersusMatches | pacer.py:80-83 | "United States v. Smith" matches. |
| PartyPattern.PrivatePartiesDoNotMatch | pacer.py:80-83 | "Acme Corp v. Beta LLC" does not match. |
| PartyPattern.NoUNoMatch | pacer.py:80-83 | A title without the letter U, in either case, never matches. |
| PartyPattern.NoANoMatch | pacer.py:80-83 | A title without the letter A never matches. So "U.S. v. Smith" and "US v. Smith" are not government cases. |
| PartyPattern.VersusNeedsWordEnd | pacer.py:80-83 | A title in which every `v` is followed by a word character never matches. |
| PartyPattern.VsDoesNotMatch | pacer.py:80-83 | "United States of America vs. Smith" and "USA vs. Smith" do not match. |
| PartyPattern.AbbreviatedUSDoesNotMatch | pacer.py:80-83 | "U.S. v. Smith" does not match. |
| PartyPattern.DottedUSADoesNotMatch | pacer.py:80-83 | "U.S.A. v. Smith" does not match: after the final dot there is no word boundary. |
| NewCaseDetection.Unseen | pacer.py:85-86 | Defines the cases that pass `case not in history`: the searched cases that are not in the history, in search order, repeats kept. It has no contract of its own; `NewCaseDetection.FindNewCases` and `HistoryFile.AddToHistory` are stated in terms of it. |
| NewCaseDetection.FindNewCases | pacer.py:76-92 | The two buckets are the unseen cases, split by the title test, in search order. Every unseen case is in the bucket its title selects and in no other bucket; cases in the history are in neither. Each bucket is a subsequence of the search results. `total` counts the unseen cases, repeats included, and equals the sum of the bucket sizes. |
| NewCaseDetection.BucketsPartitionUnseen | pacer.py:85-91 | Each case is in the buckets as often as the search returned it if it is new, and never if it was in the history. It is never in both buckets. |
| NewCaseDetection.UnseenExample | pacer.py:85-86 | Searching `[a, c]` against the history `[a, b]` finds only `c`. |
| HistoryFile.AddToHistory | pacer.py:51-56 | The file's old rows stay unchanged as a prefix. After them come exactly the searched cases not in the history read at the start of the run, in search order. |
| HistoryFile.AppendedAreTheNewCases | pacer.py:54-56 | An unseen case is appended as often as the search returned it, so duplicates are not collapsed. A case in the history is never appended. |
| HistoryFile.NothingNewAfterMerge | pacer.py:51-56 | After the append, every searched case is in the file. Comparing the same search with the new file finds nothing new. |
| HistoryFile.LexLeq | pacer.py:65 | Defines Python's `<=` on the `str` sort keys: compare code point by code point, and a proper prefix comes first. It has no contract of its own; the next three rows prove it is a total order. |
| HistoryFile.LexLeqTotal | pacer.py:65 | The string order the sort uses is total. |
| HistoryFile.LexLeqTrans | pacer.py:65 | The string order is transitive. |
| HistoryFile.LexLeqAntisym | pacer.py:65 | The string order is antisymmetric. |
| HistoryFile.Insert | pacer.py:65 | Inserting a record adds exactly that record. |
| HistoryFile.InsertSorted | pacer.py:65 | Inserting into a newest-first sequence keeps it newest first. |
| HistoryFile.SortDesc | pacer.py:65 | The sorted history is a rearrangement of the file: no record is lost or added. |
| HistoryFile.SortDescSorted | pacer.py:65 | The sorted history is newest first by the date string. |
| HistoryFile.SortStable | pacer.py:65 | The sort is stable: the records of each date keep their file order. |
| HistoryFile.StableSortUnique | pacer.py:65 | Two newest-first arrangements with the same records in the same order for every date are equal. |
| HistoryFile.SortDescCharacterised | pacer.py:65 | Any newest-first arrangement of a file that keeps each date's records in file order is `SortDesc` of it. So the model's sort is the one `sorted(..., reverse=True)` returns. |
| HistoryFile.Retained | pacer.py:63-68 | Defines `not (date < two_weeks)`. Here `date` is midnight of the filing day and `two_weeks` is the current time of day, 14 days back, both in microseconds. It has no contract of its own; `HistoryFile.RetainedInDays` restates it in whole days. |
| HistoryFile.RetainedInDays | pacer.py:63-68 | Midnight of the filing day is not before the current time minus 14 days exactly when the record was filed fewer than 14 days ago. A record filed exactly 14 days ago counts only when the run starts at midnight. |
| Seqs.RemoveFirst | pacer.py:69 | `list.remove(x)` deletes exactly one element: the first occurrence of `x`, at the index `Seqs.FirstIndex` gives (`s.index(x)`). Everything before it and everything after it is kept in order. |
| Seqs.FilterStep | pacer.py:66-69 | Walking a copy and calling `remove` on each failing element removes exactly that element's occurrence. The list is then the filtered prefix followed by the unvisited rest. |
| HistoryFile.RemoveStale | pacer.py:66-69 | The loop that walks a copy and removes stale records succeeds exactly when every date parses. It then leaves exactly the records within the window, in their sorted order. |
| HistoryFile.DatesParseReordered | pacer.py:65-67 | Whether every date of the file parses does not depend on the order of the records, so sorting first does not change which files are rejected. |
| HistoryFile.CleanHistory | pacer.py:59-73 | The file is rewritten exactly when every date in it parses. It then holds the file's records sorted newest first, minus those outside the window. |
| HistoryFile.PrunedFacts | pacer.py:59-73 | The rewritten file has these properties: it is newest first; every record in it is within the window; every record of the file within the window is in it, as often as in the file; it invents nothing (a sub-multiset); and for each date it holds that date's records in file order, or none. |
| HistoryFile.PrunedOnDate | pacer.py:65-69 | For each date, the rewritten file holds all of that date's records in file order if the date is within the window, and none otherwise. |
| HistoryFile.FilterSortedDesc | pacer.py:66-69 | Removing records from a newest-first list keeps it newest first. |
| HistoryFile.SearchedCasesRemembered | pacer.py:321-322 | After a run appends and prunes, every searched case filed within the window is in the history. So the next run does not report it again. |

## Behaviour as written

The model follows the code. In three places the code does something that its own comments, or the name of what it builds, would not lead a reader to expect:

- The "U.S. Criminal and Civil Cases" bucket (pacer.py:88) is meant for cases the United States is a party to, but some such captions do not match the pattern:
  - "United States of America vs. Smith" does not match. After the `v`, only `\.?\s*` can consume characters before the final `\b`. Neither part can consume the `s` of "vs", and between `v` and `s` there is no word boundary (`PartyPattern.VsDoesNotMatch`). White space after the `v` is fine: "USA v  Smith" matches.
  - "U.S.A. v. Smith" does not match either. If the party name takes the last dot, the `\b` after it fails, because a dot and the space after it are both non-word characters. If the party name stops before that dot, `\s*v` cannot start at the dot (`PartyPattern.DottedUSADoesNotMatch`).
  - "U.S. v. Smith" does not match, because the `A` is not optional (`PartyPattern.AbbreviatedUSDoesNotMatch`).
- The comment at pacer.py:58 promises that "cases older than two weeks" are removed. The code compares midnight of the filing day with the current time of day minus 14 days. So a record filed exactly 14 days ago is dropped unless the run starts at midnight (`HistoryFile.RetainedInDays`).
- The comment at pacer.py:50 says `add_to_history` writes the new cases into the history. It compares every searched case with the history read at the start of the run, not with what it has already appended. So a case the search returned twice is appended twice, and `find_new_cases` counts it twice (`HistoryFile.AppendedAreTheNewCases`, `NewCaseDetection.BucketsPartitionUnseen`).

## Left out

- `authenticate`, `logout` and the HTTP requests in `search`: network I/O. The search sees a given sequence of responses instead, and a login failure is not modelled.
- `read_config`, `read_history`, `create_email`, `send_email` and the file handles of `add_to_history` and `clean_history`: configuration, CSV and file I/O, and SMTP delivery. Only the sequence semantics of the history file are kept.
- `main`: it only calls the modelled operations in order. `HistoryFile.SearchedCasesRemembered` states the part of that order the model can speak about.
- The commented-out S3 and Lambda code: it is dead code.
- CaseSearch.Search: fees are summed as whole cents, not as Python floats, so float rounding is not modelled.
- CaseSearch.Search: JSON responses without `receipt`, `pageInfo`, `content` or a field of a row (a `KeyError` in the source) are not represented. Every answered page carries all of them.
- SearchWindow.GetDates: works on day ordinals in the court's time zone. The current time and the `strftime` text of the two dates are not produced. `Calendar.FormatDate` gives the text of a date, and `Calendar.ParseFormatRoundTrip` proves `strptime` reads that text back as the same date. No function maps a day number back to its date.
- SearchWindow.GetDates: accepts any day number for today. A window start before 0001-01-01, where `toDate - timedelta(days = n)` raises `OverflowError`, is not represented.
- SearchWindow.GetDates: the `"%a" == "Mon"` test is modelled as the weekday number, which is what it is in the C locale. Other locales are not modelled.
- SearchWindow.ParseArgs: takes the arguments to be `sys.argv`, which is what `main` passes. The source reads the mode from `sys.argv` even though it takes the length from its parameter.
- HistoryFile.RetainedInDays: the run's clock and the localised midnight of the filing day are taken in one UTC offset. A daylight-saving change within the 14 days, which shifts the boundary by an hour, is not modelled.
- HistoryFile.CleanHistory: every history row is a five-field record. A row with fewer than three fields, which makes the sort raise `IndexError`, is not represented.
- PartyPattern.MatchAt: `\w` and `re.IGNORECASE` are taken as ASCII. Non-ASCII letters and digits and Unicode case folding (such as the Kelvin sign matching `k`) are not modelled. `\s` is modelled with Python's full set.
- Calendar.ParseDate: only ASCII digits are read as digits, whereas Python's `\d` also accepts other Unicode decimal digits.
- Calendar.FormatDate: years before 1000, which `strftime` does not pad to four digits on every platform, are excluded.
