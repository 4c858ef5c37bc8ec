# Most active cookie, modelled in Dafny

The system answers one question about a cookie log: which cookie or cookies
were the most active on a given day. The log is a CSV file of
`cookie,timestamp` rows with timestamps in the form `YYYY-MM-DDTHH:MM:SS+00:00`,
sorted with the most recent entry first. The class `Most_Active_Cookie` does
the work:
- it checks that the file name ends in `.csv`;
- it loads the rows into three parallel lists of cookies, dates and times;
- it binary-searches the date list for the run of entries of the target day;
- it counts the cookies of that run in a dictionary that keeps insertion order;
- it reports every cookie whose count is the largest, in the order the
  dictionary first saw them.

The model has four modules:

- `Tally` (tally.dfy) holds the counting vocabulary:
  - `Count`;
  - `Distinct`, a sequence's elements in first-seen order, which is the key
    order of a Python dictionary built from it;
  - `Frequencies`, the dictionary itself;
  - `Modes`, the most frequent elements in first-seen order;
  - the lemmas that characterise these four.
- `Strings` (strings.dfy) models the Python string operations the class uses:
  - `str.split` with a one-character separator, with its inverse `Join`;
  - the slice `s[-4:]`;
  - string `<` as an explicit lexicographic order;
  - `int()` on ASCII digit strings.
- `Validation` (validation.dfy) models the two static checks,
  `check_file_csv` and `check_valid_date`. It also holds the error kinds.
- `CookieLog` (cookie_log.dfy) models the class as a Dafny `class` with
  `cookies`, `dates` and `times` fields:
  - the constructor;
  - the row loop of `load_data`;
  - `binary_search_indices`;
  - `find_active_cookie`, which returns the list it would print. Its two
    dictionary loops are the methods `CountCookies` and `MostFrequent`, each
    proved against the `Tally` functions.

The three `ValueError`s the source raises are given distinct names:
- `InvalidInput` for a file name without `.csv`;
- `ParseError` for a timestamp that does not split into exactly two pieces
  on `T`;
- `DateNotFound` for a date the search does not find.

Two behaviours of the code are worth stating, since a reader might expect
otherwise:
- The test at most_active_cookie_test.py:14-19 describes its case as raising
  a ValueError "for incorrectly formatted date input". But
  `find_active_cookie` calls `check_valid_date` and throws its verdict away
  (most_active_cookie.py:176). A malformed date such as `2021-5-1` therefore
  fails only because no log entry carries it, and then it fails with "date
  not found". `FindActiveCookie` models this.
  `Validation.ShortFieldsRejected` shows that the validator itself does
  reject that date.
- `load_data` appends a row's cookie before it splits the row's timestamp
  (most_active_cookie.py:156-159). A load that fails on a malformed row
  therefore leaves every earlier row loaded, plus one extra cookie with no
  date. `StoppedAt` states this state exactly.

## Model

| member | source | states |
|---|---|---|
| Validation.CheckFileCsv | most_active_cookie.py:38-39 | the check either passes or fails with InvalidInput; a path shorter than four characters always fails |
| Validation.CheckFileCsvEndsWith | most_active_cookie.py:38-39 | a path passes exactly when it is some stem followed by ".csv" |
| Validation.LeapRule | most_active_cookie.py:78 | the source's leap-year expression is the Gregorian rule: divisible by 4 and not by 100 unless by 400 |
| Validation.CalendarCheck | most_active_cookie.py:64-89 | the range checks on month and day accept exactly the real calendar dates: months 1 to 12, days from 1 to the month's length, and February 29 only in leap years |
| Validation.CheckValidDate | most_active_cookie.py:54-93 | a date the validator accepts is ten characters long with '-' at positions 4 and 7 |
| Validation.CheckValidDateIsFullDate | most_active_cookie.py:54-93 | the validator returns true exactly for strings of the form YYYY-MM-DD: '-' at positions 4 and 7, digits elsewhere, naming a real day; every other string, including one that does not split into three pieces, gives false and never an error |
| Validation.FormatDateIsFullDate | most_active_cookie.py:54-89 | a date written with zero-padded fields of widths 4, 2 and 2 has the full-date form exactly when it is a real calendar date |
| Validation.FormattedDatesAreValid | most_active_cookie.py:54-89 | every real date of years 0 to 9999, written as YYYY-MM-DD, is accepted |
| Validation.ValidDatesAreFormatted | most_active_cookie.py:54-89 | every accepted string has the full-date form and is the zero-padded form of the numbers it holds; with FormattedDatesAreValid this makes formatting and validating inverse |
| Validation.LeapDay | most_active_cookie.py:76-83 | a February 29 date is accepted exactly when its year is a leap year |
| Validation.ShortFieldsRejected | most_active_cookie_test.py:16-19 | the date '2021-5-1', whose fields have one digit, is rejected by the validator |
| Strings.Split | most_active_cookie.py:55 | str.split gives at least one piece, and no piece contains the separator |
| Strings.SplitCount | most_active_cookie.py:55 | str.split gives one more piece than there are separators |
| Strings.JoinSplit | most_active_cookie.py:55 | putting the separator back between the pieces of a split gives the original string |
| Strings.SplitJoin | most_active_cookie.py:55 | splitting separator-free pieces that were joined with the separator gives the pieces back |
| Strings.SplitInTwo | most_active_cookie.py:159 | a string splits into exactly [left, right] if and only if it is left, the separator, right, with neither side holding the separator |
| Strings.TakeLast | most_active_cookie.py:38 | s[-n:] has length n, or all of s when s is shorter, and is the end of s |
| Strings.Less | most_active_cookie.py:132 | string < is irreflexive: a string that is less than another differs from it |
| Strings.LessIsLexicographic | most_active_cookie.py:132 | string < holds exactly when a is a proper prefix of b, or at the first position where they differ a has the smaller character |
| Strings.LessTransitive | most_active_cookie.py:132 | string < is transitive |
| Strings.LessTotal | most_active_cookie.py:132-135 | of two different strings one is less than the other, so a date that is neither equal to nor below the middle date lies above it |
| Strings.DigitsValue | most_active_cookie.py:62 | int() of a string of n digits is below 10 to the power n |
| Strings.DigitsValueZeroPadded | most_active_cookie.py:62 | reading back a number written with w zero-padded digits gives the number when it fits |
| Strings.ZeroPaddedDigitsValue | most_active_cookie.py:62 | writing the value of a digit string back at the same width gives the string |
| CookieLog.SplitTimestamp | most_active_cookie.py:159 | unpacking the split on 'T' succeeds exactly when the timestamp holds one 'T', and its pieces are the text before and after it, neither holding 'T' |
| CookieLog.SplitTimestampJoin | most_active_cookie.py:159 | a date and a time without 'T', joined by one 'T', unpack back into that date and that time |
| CookieLog.AppendedTimestamps | most_active_cookie.py:156-161 | after a load, entry i of the three lists holds row i's cookie, and the date and time glued around a 'T' give row i's timestamp back |
| CookieLog.SortedRunHoldsAll | most_active_cookie.py:97-105 | in a log sorted most recent first, the entries equal to the target are exactly those of a maximal run of the target |
| CookieLog.SortedRunCount | most_active_cookie.py:95-106 | in a log sorted most recent first, a maximal run of the target date is as long as the date's number of entries |
| CookieLog.SortedRunIsCookiesOn | most_active_cookie.py:95-106 | in a sorted log, the cookies of a maximal run of the target date are exactly the cookies logged on that date, in log order |
| CookieLog.MostActiveCookie.constructor | most_active_cookie.py:22-24 | a new finder holds three empty lists |
| CookieLog.MostActiveCookie.LoadData | most_active_cookie.py:149-161 | InvalidInput exactly when the file name check fails, with the lists unchanged. Otherwise the load succeeds exactly when every row's timestamp holds one 'T', and it has then appended one cookie, date and time per row. On a ParseError the rows before the first malformed row are appended in full, and of that row only the cookie |
| CookieLog.MostActiveCookie.AppendRows | most_active_cookie.py:155-161 | the row loop ends with Pass exactly when every timestamp holds one 'T', and leaves the lists as LoadData describes; dates and times stay the same length, never longer than cookies |
| CookieLog.MostActiveCookie.BinarySearchIndices | most_active_cookie.py:107-137 | the result is (-1, -1) or a maximal run of entries equal to the target, so no index goes out of range whatever the order. In a log sorted most recent first it is (-1, -1) exactly when the date is absent, and otherwise the run's length is the date's number of entries |
| CookieLog.MostActiveCookie.FindActiveCookie | most_active_cookie.py:176-199 | it fails only with DateNotFound, and in a sorted log exactly when no entry has the date. On success the output is non-empty, has no duplicates, and is the mode list of some maximal run of the date; in a sorted log that is the mode list of all cookies logged on that date |
| CookieLog.CountCookies | most_active_cookie.py:184-189 | the counting loop builds the dictionary Frequencies(run), with its keys in the order Distinct(run) |
| CookieLog.MostFrequent | most_active_cookie.py:192-199 | walking a tally in key order and keeping the cookies whose count is the largest seen gives exactly Modes of the counted cookies |
| Tally.TallyCounts | most_active_cookie.py:184-189 | the dictionary built from a sequence maps each of its keys, listed in first-seen order, to that key's number of occurrences, and has no other keys |
| Tally.FrequenciesDomain | most_active_cookie.py:186-189 | a value is a key of the dictionary exactly when it occurs in the sequence |
| Tally.DistinctElements | most_active_cookie.py:186-189 | the insertion-ordered keys are exactly the values of the sequence, each once |
| Tally.DistinctFirstSeen | most_active_cookie.py:186-194 | the keys are ordered by their first occurrence in the sequence |
| Tally.CountBlock | most_active_cookie.py:117-129 | a value that occurs exactly at the positions lo to hi-1 occurs hi - lo times |
| Tally.ModesAreMostFrequent | most_active_cookie.py:192-199 | a value is in the output exactly when it occurs and no value occurs more often |
| Tally.ModesNonEmpty | most_active_cookie.py:192-199 | a non-empty run gives a non-empty output |
| Tally.ModesFirstSeen | most_active_cookie.py:192-199 | the output has no duplicates and lists the tied cookies in the order they first appear in the run |
| Tally.FirstSeenOrderUnique | most_active_cookie.py:192-199 | two lists in first-seen order with the same elements are equal, so the output is fixed by its elements |
| Tally.ModesCharacterised | most_active_cookie_test.py:78-93 | a list is the output exactly when it is in first-seen order and holds exactly the cookies of largest count; fixed this way, the three-way tie of the expected output is printed in first-seen order |

## Left out

- The command line (`main`, argparse, most_active_cookie.py:206-227) and the
  tests that expect a usage exit are not modelled. They run before any core
  logic.
- Opening the file and reading it with `csv.DictReader`
  (most_active_cookie.py:153-154) is not modelled. `LoadData` takes the
  reader's rows as a sequence of cookie and timestamp pairs. A missing file,
  which the source reports as FileNotFoundError, is not modelled.
- Printing the output (most_active_cookie.py:202-203) is not modelled.
  `FindActiveCookie` returns the list that would be printed, in print order.
- The expected outputs of the end-to-end tests depend on the contents of
  cookie_log.csv. That file is not part of this model, so those outputs are
  not restated. `Tally.ModesCharacterised` states the order rule they rely on.
- `times` is stored and never read (most_active_cookie.py:24, 161). The model
  stores it in the same way; no contract beyond its length and contents is
  stated.
- Validation.CheckValidDate: `int()` is modelled as ASCII decimal digits only. Python
  also accepts a sign, surrounding whitespace, underscores between digits and
  non-ASCII decimal digits, so a field such as `+202` counts as valid in the
  source and invalid here. `find_active_cookie` discards the verdict
  (most_active_cookie.py:176), so no output of the class depends on this.
- CookieLog.MostActiveCookie.BinarySearchIndices: in an unsorted log the
  result is only promised to be (-1, -1) or a maximal run of the target. Which
  run it is, or whether a present date is missed, is not stated, in line with
  the source's assumption of a sorted log.
- CookieLog.MostActiveCookie.FindActiveCookie: in an unsorted log a failure
  is only promised to carry DateNotFound. That it happens exactly when the
  search returns -1 is not stated, because the search is a method and the
  contract cannot name its result.
- Python's unbounded `int` matches Dafny's `int`, so no width or wrap-around
  arises, and the model does not check the index arithmetic for overflow.
