# Oireachtas debate fetcher and date index, modelled in Dafny

Two maintenance scripts keep a dataset of Dáil debate records up to date.

- `fetch_debates_2026.py` walks the calendar one day at a time, from 1 January 2026 to today. For each day it asks the Oireachtas open-data service for that day's debate record (`<BASE_URL>/<YYYY-MM-DD>/debate/mul@/main.xml`). It saves the record as `<YYYY-MM-DD>_mul@.xml` when the answer is a 200 whose body passes a cheap sniff, `looks_like_xml`. That sniff needs at least 100 bytes; after the leading whitespace it looks at a 500-byte head, lower-cased, which must open with `<` and must not open an HTML page. The script counts saved days and missing days; a request that raises counts as neither.
- `generate_available_dates.py` lists the files of the published dataset. It picks out every path that ends in `<dddd-dd-dd>_mul@.xml` and collects the dates in a set. It writes them out sorted.

The model has six modules:

- `Options`: the option type.
- `Calendar`: Python `date` values between years 1 and 9999, `+ timedelta(days=1)`, `<=` and `isoformat()`.
- `XmlSniff`: `looks_like_xml` on byte strings, with `bytes.lstrip`, `bytes.lower` and slicing.
- `FetchDebates`: the URL and the file name of a day, the `try` block as a function (`Step`) and as a method (`FetchDay`), the loop (`FetchAll`), and the specification of the loop as a fold of `Step` over the visited days (`Run`).
- `AvailableDates`: the regular expression as `MatchDate`, Python's string order as `StrLess`, `sorted` as `Insert`, and the script's loop as `BuildIndex`. `DateSet` is its specification.
- `RoundTrip`: connects the two scripts. A name the fetcher writes is recognised by the index and yields back the day's ISO date. ISO strings sort as dates do. So, when the dataset holds exactly the fetcher's saved files, the index is the list of saved days in walk order.

The network is a parameter `fetch: string -> Response`. A `Response` is either a status with a body, or `Raised`, which stands for any exception inside the `try` block. `END_DATE` (today) and `START_DATE` are parameters of `FetchAll`; `FetchDebates.StartDate` holds the script's start date. The dataset listing is a parameter of `BuildIndex`.

Two behaviours of the scripts are worth knowing, and the model keeps both:

- A request that raises counts as neither saved nor missing. So the two totals the fetcher prints can add up to fewer than the number of days walked (`FetchDebates.CountersBounded`).
- The `$` in the index pattern also matches before a final newline. So a listed path that ends in `_mul@.xml` followed by a newline is indexed too (`AvailableDates.MatchDateExactly`).

The repository also holds a renderer for debate records; it is not part of this model.

## Model

| member | source | states |
|---|---|---|
| Calendar.DaysInMonth | fetch_debates_2026.py:72 | every month has 28 to 31 days; it has 29 exactly when it is February of a leap year (Gregorian rule) |
| Calendar.Before | fetch_debates_2026.py:52 | date order `a < b` (year, then month, then day) never holds between a date and itself |
| Calendar.NotAfter | fetch_debates_2026.py:52 | the loop test `d <= END_DATE` holds exactly when the end date is not before `d` |
| Calendar.RankMonotone | fetch_debates_2026.py:52 | for valid dates, `a < b` holds exactly when a's rank is below b's; the rank bounds the walk |
| Calendar.NextDay | fetch_debates_2026.py:72 | `d + timedelta(days=1)` fails (OverflowError) exactly at 9999-12-31; otherwise it gives a valid date after `d` |
| Calendar.NextDayIsImmediate | fetch_debates_2026.py:72 | no valid date lies strictly between a day and the next: any later date is on or after the successor |
| Calendar.LastDateIsLast | fetch_debates_2026.py:72 | every valid date is on or before 9999-12-31 |
| Calendar.Pad2 | fetch_debates_2026.py:53 | a month or day becomes two decimal digits that read back as the number |
| Calendar.Pad4 | fetch_debates_2026.py:53 | a year becomes four decimal digits |
| Calendar.Iso | fetch_debates_2026.py:53 | `isoformat()` of a valid date is 10 characters long |
| Calendar.IsoShape | fetch_debates_2026.py:53 | `isoformat()` is four digits, a dash, two digits, a dash and two digits |
| Calendar.IsoRoundTrip | fetch_debates_2026.py:53 | reading the digits back from `isoformat()` gives the same date |
| Calendar.IsoInjective | fetch_debates_2026.py:53 | different dates have different ISO strings |
| XmlSniff.IsSpace | fetch_debates_2026.py:31 | the bytes `lstrip()` removes (ASCII whitespace) all lie below `<` and none is an upper-case letter |
| XmlSniff.ToLower | fetch_debates_2026.py:31 | `lower()` of a byte is never an upper-case letter; it is the byte itself or the byte plus 32; it keeps whitespace whitespace and `<` as `<` |
| XmlSniff.Lower | fetch_debates_2026.py:31 | `lower()` keeps the length and leaves no upper-case letter |
| XmlSniff.LStrip | fetch_debates_2026.py:31 | `lstrip()` returns a suffix of its input; every byte removed is ASCII whitespace; the result is empty or starts with a non-space byte |
| XmlSniff.Take | fetch_debates_2026.py:31 | `[:500]` gives the first 500 bytes, or the whole string when it is shorter |
| XmlSniff.StartsWith | fetch_debates_2026.py:32-34 | `startswith` holds exactly when the pattern is no longer than the string and agrees with it byte by byte |
| XmlSniff.LooksLikeXml | fetch_debates_2026.py:28-34 | an accepted body has at least 100 bytes and something left after stripping its leading whitespace |
| XmlSniff.LowerHeadPrefix | fetch_debates_2026.py:31-32 | the lower-cased 500-byte head starts with a lower-case pattern exactly when the stripped body starts with that pattern in any letter case |
| XmlSniff.XmlDeclSubsumed | fetch_debates_2026.py:34 | a head starting with `<?xml` also starts with `<`, so the first test adds nothing |
| XmlSniff.LooksLikeXmlExactly | fetch_debates_2026.py:28-34 | the verdict is true exactly when the body has at least 100 bytes and its stripped text starts with `<` but not with `<!doctype html` or `<html` in any case |
| XmlSniff.ShortBodyRejected | fetch_debates_2026.py:29-30 | an empty body, or one under 100 bytes, is rejected |
| XmlSniff.HtmlRejected | fetch_debates_2026.py:31-33 | a body that opens with `<!doctype html` or `<html` after its whitespace, in any case, is rejected |
| XmlSniff.AcceptedShape | fetch_debates_2026.py:29-34 | an accepted body has at least 100 bytes and a `<` preceded only by whitespace |
| XmlSniff.LStripIgnoresCase | fetch_debates_2026.py:31 | stripping commutes with changing letter case: bodies equal up to case stay equal up to case |
| XmlSniff.VerdictIgnoresCase | fetch_debates_2026.py:29-34 | bodies that differ only in ASCII letter case get the same verdict |
| XmlSniff.HeadDecides | fetch_debates_2026.py:31 | for bodies of equal length, bytes after the first 500 of the stripped text do not change the verdict |
| FetchDebates.Url | fetch_debates_2026.py:54 | the URL starts with `BASE_URL` and is 32 characters longer than it |
| FetchDebates.UrlNamesDay | fetch_debates_2026.py:54 | the URL is the base, `/`, the day's ISO date, and `/debate/mul@/main.xml`, at fixed offsets |
| FetchDebates.UrlInjective | fetch_debates_2026.py:54 | different days are requested at different URLs |
| FetchDebates.FileName | fetch_debates_2026.py:55 | the saved name is 19 characters: the day's ISO date followed by `_mul@.xml` |
| FetchDebates.FileNameInjective | fetch_debates_2026.py:55 | different days are saved under different names, so no save overwrites another day's file |
| FetchDebates.Classify | fetch_debates_2026.py:57-70 | a day is saved exactly when the answer is a 200 whose body passes `looks_like_xml`; it counts as neither saved nor missing exactly when the request raised |
| FetchDebates.DatesFrom | fetch_debates_2026.py:52 | every day the walk visits is a valid date |
| FetchDebates.DatesFromBounds | fetch_debates_2026.py:48-52 | every visited day lies between the start date and the end date |
| FetchDebates.DatesFromAscending | fetch_debates_2026.py:72 | the walk visits its days in strictly increasing order, so none twice |
| FetchDebates.DatesFromComplete | fetch_debates_2026.py:52-72 | every valid day from the start date to the end date is visited |
| FetchDebates.Step | fetch_debates_2026.py:57-70 | one day adds one to `saved + missing`, except when its request raised, which adds nothing |
| FetchDebates.Run | fetch_debates_2026.py:49-70 | after the days `ds`, `saved + missing` is at most the number of days |
| FetchDebates.AllDaysCounted | fetch_debates_2026.py:57-67 | when no request raised, every day is counted once, as saved or as missing |
| FetchDebates.RaisedDayUncounted | fetch_debates_2026.py:69-70 | a day whose request raised leaves `saved + missing` below the number of days |
| FetchDebates.CountersBounded | fetch_debates_2026.py:49-70 | `saved + missing` is at most the number of days visited; it equals it exactly when no request raised |
| FetchDebates.FilesAreSavedDays | fetch_debates_2026.py:62-64 | every file written is named after a visited day that was saved, and holds the body received for it |
| FetchDebates.SavedDaysHaveFiles | fetch_debates_2026.py:62-64 | every saved day has its file, holding the body the server sent for that day |
| FetchDebates.OneFilePerSavedDay | fetch_debates_2026.py:55-64 | when no day repeats, the number of files equals `saved` |
| FetchDebates.FetchDay | fetch_debates_2026.py:53-70 | one pass of the `try` block takes the counters and files after the days visited so far to those after one more day |
| FetchDebates.WalkStep | fetch_debates_2026.py:52-72 | after visiting `d` the walk goes on from its successor; when there is none, the end date is 9999-12-31 and the walk is complete |
| FetchDebates.FetchAll | fetch_debates_2026.py:48-73 | the loop visits exactly the days from the start date to the end date, in order. Its counters and files are the fold of the per-day outcomes over those days. `d += timedelta(days=1)` raises exactly when the walk reaches 9999-12-31 |
| AvailableDates.DateAtEnd | generate_available_dates.py:20 | a match anchored at the end captures a `dddd-dd-dd` date that the path ends with, followed by `_mul@.xml` |
| AvailableDates.MatchDate | generate_available_dates.py:20-26 | a date found by `search` is one the path names: `dddd-dd-dd`, then `_mul@.xml`, then at most a final newline |
| AvailableDates.DateAtEndExactly | generate_available_dates.py:20 | a match ending at the end of the path exists exactly when the path ends with a `dddd-dd-dd` date and `_mul@.xml`, and it captures that date |
| AvailableDates.MatchDateExactly | generate_available_dates.py:20-27 | `search` finds a match with group `x` exactly when the path ends with `x` and `_mul@.xml` (or those and a final newline) and `x` is `dddd-dd-dd` |
| AvailableDates.DateSet | generate_available_dates.py:22-27 | every member of the collected set has the shape `dddd-dd-dd` |
| AvailableDates.DateSetMembers | generate_available_dates.py:22-27 | a date is in the collected set exactly when some listed path yields it as its group |
| AvailableDates.StrLess | generate_available_dates.py:29 | a string that sorts before another differs from it |
| AvailableDates.StrLessIrreflexive | generate_available_dates.py:29 | no string sorts before itself |
| AvailableDates.StrLessAsymmetric | generate_available_dates.py:29 | no two strings each sort before the other |
| AvailableDates.StrLessTransitive | generate_available_dates.py:29 | the string order is transitive |
| AvailableDates.StrLessTotal | generate_available_dates.py:29 | any two different strings are ordered one way or the other |
| AvailableDates.AscendingAppend | generate_available_dates.py:29 | appending a string greater than all members keeps a list ascending |
| AvailableDates.Insert | generate_available_dates.py:29 | inserting into an ascending list keeps it ascending and adds exactly the new element |
| AvailableDates.AscendingUnique | generate_available_dates.py:29 | two ascending lists with the same members are equal: the sorted output of a set is unique |
| AvailableDates.BuildIndex | generate_available_dates.py:20-29 | the output is strictly ascending (so duplicate-free) and holds exactly the dates of the listed paths that match |
| AvailableDates.IndexSound | generate_available_dates.py:24-27 | every listed date is the `dddd-dd-dd` group just before a trailing `_mul@.xml` of some input path |
| AvailableDates.IndexComplete | generate_available_dates.py:24-27 | every input path ending in `dddd-dd-dd_mul@.xml` contributes its date to the output |
| AvailableDates.UnmatchedPathIgnored | generate_available_dates.py:20-26 | a path that names no date leaves the collected set unchanged |
| AvailableDates.IndexIgnoresOrder | generate_available_dates.py:22-29 | the output depends only on which paths are listed, not on their order or repetition |
| RoundTrip.StrLessConcat | generate_available_dates.py:29 | for first parts of equal length, the string order compares the first parts, then the rest |
| RoundTrip.Pad2Order | fetch_debates_2026.py:53 | two-digit zero-padded numbers sort as strings as they do as numbers |
| RoundTrip.Pad4Order | fetch_debates_2026.py:53 | four-digit zero-padded years sort as strings as they do as numbers |
| RoundTrip.IsoOrder | generate_available_dates.py:29 | sorting ISO strings sorts the dates: `a < b` exactly when `a.isoformat() < b.isoformat()` |
| RoundTrip.FileNameIndexed | fetch_debates_2026.py:55 | under any folder prefix, the name the fetcher saves a day under matches the index pattern, and the group is the day's ISO date |
| RoundTrip.SavedIsosMembers | fetch_debates_2026.py:62-64 | a string is among the saved days' ISO dates exactly when it is the ISO date of a visited day that was saved |
| RoundTrip.SavedIsosBelow | fetch_debates_2026.py:52 | the saved days of a walk before a date have ISO strings below that date's |
| RoundTrip.SavedIsosAscending | fetch_debates_2026.py:52-72 | the saved days of a walk in date order have ISO strings in ascending string order |
| RoundTrip.PublishedHoldsSavedDays | fetch_debates_2026.py:62-64 | publishing the fetcher's files under a folder gives exactly the paths of the saved days |
| RoundTrip.IndexedDaysWereSaved | generate_available_dates.py:24-27 | every date in the index of such a dataset is a day the walk saved |
| RoundTrip.SavedDaysIndexed | generate_available_dates.py:24-27 | every day the walk saved is in the index of such a dataset |
| RoundTrip.IndexMember | generate_available_dates.py:22-29 | a string is in the index exactly when it is the ISO date of a saved day |
| RoundTrip.PublishedIndex | generate_available_dates.py:20-29 | end to end: the index of a dataset holding exactly a walk's saved files is the list of their ISO dates, in the order the walk saved them |

## Left out

- `up_to_HF.py` (the folder upload through `HfApi.upload_large_folder`) is not part of this model. The dataset's listing is a parameter; `RoundTrip.Published` states what an upload of the fetcher's folder is assumed to give.
- The HTTP session: headers, the 30-second timeout and retries. `fetch` stands for the whole request; any exception it raises is the single value `Raised`.
- `time.sleep` and `HfApi.list_repo_files` are not modelled: the pause changes nothing the script computes, and the listing is the parameter of `BuildIndex`.
- `FetchDebates.FetchAll` assumes that `print` and `OUT_DIR.mkdir` never raise. In the script they can. `OUT_DIR.mkdir(exist_ok=True)` raises `FileExistsError` when `~/2026` exists but is not a directory, and `main` then ends before the loop. The `print` on line 65 runs after `saved += 1`, so when it raises the `except` block catches it and the counters stay as modelled. The `print` on line 70 sits in the `except` block itself; when it raises (for example, when standard output cannot encode the emoji or the pipe is closed), `main` ends in the middle of the walk, and the visited days are then a proper prefix of `DatesFrom(start, end)`. The final three `print` calls, which report the totals, are not modelled either.
- `json.dumps` and the write of `data/available-dates.json`. The model stops at the sorted list.
- `out_file.write_bytes` and `OUTPUT.write_text` always succeed in the model. A failing write inside the `try` block would count the day as neither saved nor missing; that case is not modelled. Files are a map from bare file name to body; the `OUT_DIR` folder is the `prefix` of `RoundTrip`.
- `dt.date.today()` is the `end` parameter of `FetchDebates.FetchAll`.
- `FetchDebates.FetchAll`: the start date is a parameter, where `main` fixes it to `FetchDebates.StartDate` (2026-01-01).
- `FetchDebates.FetchAll`: when `d += timedelta(days=1)` raises at 9999-12-31, the model sets `overflow` and stops. It does not model the traceback that ends the script.
- `AvailableDates.MatchDate` matches ASCII digits only. For `str` patterns, Python's `\d` also matches other Unicode decimal digits, so a path with, say, Arabic-Indic digits would be indexed by the script but not by the model.
- `FetchDebates.Response` bodies are byte strings; statuses are unbounded integers.
