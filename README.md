# RocketLaunch schedule scraper: heading parser and tag scanner

This project models the decision logic of the launch-schedule scraper in
`main.py`. It has two parts.

- `process_h2` reads the text of a schedule heading such as
  `January 3, 2023 - SpaceX Falcon 9, Transporter 6`. It returns
  `[[day, month, year], mission]`, or `None` when the text does not start
  with a month abbreviation.
- The loop in `process` walks the page's `h2` and `p` tags in document order.
  A dated `<h2 id ...>` heading opens a record. The next tag whose text starts
  with `Launch` completes the record, and the completed record is printed.

Files and modules:

- `pystr.dfy`, module `PyStr`: the Python string operations the parser uses,
  with CPython's semantics. These are the slice prefix test, `sep in s`,
  `s.split(sep)` (every leftmost non-overlapping occurrence, empty pieces
  kept) and `s.strip()` (the full `str.isspace` character set).
- `heading.dfy`, module `Headings`: `process_h2` as the function
  `ParseHeading`, with the month table and the abbreviation list.
  - A result of `NotADate` is the source's `None`.
  - A result of `Parsed(h)` is the two-level list, with the month as
    `Option<string>` because `month_dict.get` can give `None`.
  - A result of `Raised(e)` is one of the two `IndexError`s that escape the
    function.
- `scan.dfy`, module `Scanning`: the loop as the method `Process`, which keeps
  the source's `ctrl_flag` and `this_mission` variables. It is proved equal to
  the specification function `Scan`, a left fold of `Step` over the tags. The
  records printed at main.py:50 become the output sequence `printed`. When
  `process_h2` raises, the outcome is `Failed` and the loop stops. Records
  printed before that point stay printed.
  - `Scan`, `Step` and `Process` take the heading parser as a parameter.
    `ProcessSchedule` is the loop with `ParseHeading` as that parser.
  - The scanner lemmas hold for every parser. Those that need it assume only
    that the parser never takes a `Launch` text for a dated heading, and
    `ParseHeadingRejectsLaunch` proves this of `ParseHeading`.
- `walkthrough.dfy`, module `Walkthrough`: short tag sequences of the shapes
  the page produces, run through the scanner.

A tag is the pair `Tag(markup, text)`, standing for `str(tag)` and
`tag.get_text()`.

Behaviour of `main.py` that the model keeps:
- A heading with no day token gets the literal day string `"null"`.
- Months are the strings `"01"`…`"12"`, or `None` for a month word that is
  not a key of `month_dict`.
- A dated heading (its text starts with a month abbreviation) without ` - `
  raises an `IndexError` that nothing catches, so the run ends. A heading
  that fails the month test gets `None` and is skipped.
- For `March 2023 - X`, the token `2023` becomes both the year and the day.
- Any tag, headings included, can complete a record while a record is open.

## Model

| member | source | states |
|---|---|---|
| `PyStr.Take` | main.py:80 | `s[0:n]` has length `min(n, len(s))` and is a prefix of `s` |
| `PyStr.SplitJoin` | main.py:89 | joining the pieces of `s.split(sep)` with `sep` gives back `s` |
| `PyStr.SplitPiecesAvoidSep` | main.py:89 | no piece of `s.split(sep)` contains `sep` |
| `PyStr.SplitFirstPiece` | main.py:89-90 | the first piece of a split is a prefix of `s`, and `sep` follows it when there are more pieces |
| `PyStr.SplitSingleIff` | main.py:90 | a split has exactly one piece, so that indexing piece 1 raises, if and only if `sep` does not occur in `s` |
| `PyStr.SplitAfter` | main.py:89-92 | when `sep` does not begin inside `a`, `(a + sep + b).split(sep)` is `[a]` followed by `b.split(sep)` |
| `PyStr.StripStart` | main.py:90 | `lstrip()` removes only whitespace from the front, and the result is a suffix that does not start with whitespace |
| `PyStr.StripEnd` | main.py:95 | `rstrip()` removes only whitespace from the end, and the result is a prefix that does not end with whitespace |
| `PyStr.StripIsTrimmedSlice` | main.py:90 | `strip()` returns a slice of `s` with only whitespace outside it, and the slice neither starts nor ends with whitespace |
| `PyStr.StripUnchanged` | main.py:95 | `strip()` leaves alone a string that neither starts nor ends with whitespace |
| `PyStr.StripIdempotent` | main.py:90 | `strip()` applied twice gives the same result as once |
| `PyStr.StripLeadingSpace` | main.py:95 | leading whitespace does not change the result of `strip()` |
| `Headings.NotADateIff` | main.py:80-112 | `process_h2` returns `None` exactly when the first three characters are not one of `Jan`…`Dec` |
| `Headings.LaunchTextIsNotADate` | main.py:80 | text that starts with `Launch` is never a dated heading |
| `Headings.NoTitleSeparatorIff` | main.py:89-90 | a dated heading raises at `details_string[1]` exactly when it has no ` - ` |
| `Headings.HeadingParts` | main.py:89-92 | when the date part before the first ` - ` has no `-`, the result depends only on that date part and on the stripped first segment after the separator |
| `Headings.NoYearFieldIff` | main.py:92-99 | the year lookup, including its fallback, finds no token exactly when the date part has neither a comma nor a space |
| `Headings.NoYearTokenIff` | main.py:92-99 | when the date part has no `-`, the fallback year lookup raises exactly when the date part has neither a comma nor a space |
| `Headings.SplitTitle` | main.py:89-90 | when the date part has no `-`, the second ` - ` segment is the first segment of the text after the first separator |
| `Headings.FirstSegmentWhole` | main.py:90 | a title with no ` - ` is its own first segment |
| `Headings.DashFreeText` | main.py:89 | a text with no `-` does not contain ` - ` |
| `Headings.ExactDateFields` | main.py:92-110 | the date part `M D, Y` gives the padded day `D`, the month of `M` and the stripped `Y` |
| `Headings.MonthOnlyFields` | main.py:92-109 | the date part `M, Y` gives the day `"null"`, the month of `M` and the stripped `Y` |
| `Headings.NoCommaFields` | main.py:92-107 | the date part `M Y` gives `Y` unstripped as the year and, padded, as the day |
| `Headings.ExactDate` | main.py:89-110 | `Month D, YYYY - Title` gives the day (a one-character token left-padded with `0`, longer tokens unchanged), the table's month value, the stripped year and the stripped second segment as title |
| `Headings.PlainTitle` | main.py:89-90 | a title with no `-` is its own first ` - ` segment, so the title field is the title stripped |
| `Headings.ExactDatePlainTitle` | main.py:58-110 | `Month D, YYYY - Title` with no `-` in the title, the docstring's shape, gives the padded day, the month value, the stripped year and the stripped title |
| `Headings.MonthOnlyDate` | main.py:92-109 | `Month, YYYY - Title` gives the day `"null"` and the stripped text after the comma as the year |
| `Headings.NoCommaDate` | main.py:97-107 | `Month YYYY - Title` takes the year from the fallback, unstripped, and uses the same token as the day, padded only when it has one character |
| `Headings.UnknownMonthStillParsed` | main.py:101-110 | a month word that passes the prefix test but is not a table key still gives a record, with month `None` |
| `Headings.MonthLookupTable` | main.py:63-76 | `month_dict.get` is defined exactly on the twelve full month names, and maps the i-th name to the two-digit number i |
| `Headings.TwoDigits` | main.py:64-75 | the month numbers are two decimal digits whose value is the month's number |
| `Scanning.Process` | main.py:32-51 | for any heading parser, the loop prints exactly the records of `Scan(parse, tags)` and ends with its outcome |
| `Scanning.ProcessSchedule` | main.py:36-51 | with `process_h2` as the parser, the loop prints exactly the records of `Scan(ParseHeading, tags)` and ends with its outcome |
| `Scanning.ParseHeadingRejectsLaunch` | main.py:80 | `process_h2` returns `None` for every text that starts with `Launch` |
| `Scanning.ScanStaysFailed` | main.py:40 | once `process_h2` has raised, the remaining tags change nothing |
| `Scanning.StepOpensOnHeading` | main.py:39-44 | a dated heading opens its record, replacing any open one, and never completes a record in the same step |
| `Scanning.StepIdleIgnores` | main.py:37-48 | while idle, every tag except a dated heading is ignored, `Launch` texts included |
| `Scanning.StepCapturingKeeps` | main.py:39-48 | while capturing, a tag that is neither a dated heading nor a `Launch` text changes nothing |
| `Scanning.StepCompletes` | main.py:47-51 | while capturing, a `Launch` text that is not a dated heading prints the open record with that text appended, and the scanner goes idle |
| `Scanning.StepPrintsOnlyOnLaunch` | main.py:47-51 | a step prints nothing, or it prints the open record with the `Launch` text appended, and then the scanner is idle |
| `Scanning.StepFails` | main.py:40 | an exception from `process_h2` keeps what was printed and ends the run |
| `Scanning.StepScanner` | main.py:37-51 | a step keeps the scanner, makes it idle, or opens the heading just read |
| `Scanning.AtMostOneDetailPerHeading` | main.py:36-51 | printed records plus the open one never outnumber the dated headings, and printed records never outnumber the `Launch` texts |
| `Scanning.TraceableStep` | main.py:36-51 | one more tag keeps every record traceable to a dated heading and a later `Launch` text |
| `Scanning.PrintedProvenance` | main.py:36-51 | every printed record is the result of a dated heading tag plus the text of a later `Launch` tag |
| `Scanning.PrintedGrows` | main.py:50 | records once printed stay printed: the output for a prefix of the tags is a prefix of the output for all of them |
| `Walkthrough.HeadingThenLaunch` | main.py:36-51 | a dated heading followed by a `Launch` paragraph prints one record |
| `Walkthrough.DatedEntry` | main.py:39-50 | the page's usual `<h2 id>` entry followed by its `Launch` paragraph prints `[[DD, MM, YYYY], Title, paragraph]` |
| `Walkthrough.OneDetailOnly` | main.py:37-51 | a rejected heading keeps the record open, the first `Launch` paragraph completes it, and a second one is ignored |
| `Walkthrough.FailureKeepsPrinted` | main.py:40-50 | a heading that raises ends the run and keeps the record printed before it |

## Left out

- The HTTP fetch (main.py:26): network I/O. The tag sequence is an input.
- BeautifulSoup parsing and `find_all(['h2', 'p'])` (main.py:28-29): a foreign library. A tag is abstracted to its `str(tag)` and `get_text()` strings.
- `print` (main.py:50): I/O. The printed records are the output sequence.
- The `__main__` guard (main.py:116-117): process start-up only.
- `main_array` (main.py:33): it is never filled or read.
- The value `this_mission` keeps after the last tag: it is never used. `Process` models it as a local variable.
- DataAccessCloud.py: a wrapper over DynamoDB calls with no logic of its own.
- DataAccessLocal.py: file reads, writes and appends only.
- NET or Quarter date phrases, comma removal, date filtering against today, sorting, hashing and change detection: `main.py` does none of these.
- Python's traceback: an escaping `IndexError` is only recorded as the outcome `Failed(e)`, with the line it comes from.
- Headings.ExactDate, Headings.MonthOnlyDate, Headings.NoCommaDate, Headings.NoYearTokenIff: these cover date parts with no `-` and month and day tokens with no space or comma. Other date parts are handled by `ParseHeading` itself, but no lemma describes them separately.
- Concrete string samples, such as the docstring heading at main.py:58: Dafny cannot unfold the recursive `Split` far enough to compute its result on a literal heading string. `Walkthrough.DatedEntry` states the same result for every heading of that shape.
