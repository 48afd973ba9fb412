/** `process_h2`: turns the text of a launch-schedule heading such as
    "January 3, 2023 - SpaceX Falcon 9, Transporter 6" into
    `[[day, month, year], mission]`, or nothing when the text does not start
    with a month abbreviation. The two `IndexError`s the function lets escape
    are part of its result here. */
module Headings {
  import opened PyStr

  datatype Option<T> = None | Some(value: T)

  /** The three-letter prefixes that mark a heading as a dated entry. */
  const MonthAbbreviations: seq<string> :=
    ["Jan", "Feb", "Mar", "Apr", "May", "Jun", "Jul", "Aug", "Sep", "Oct", "Nov", "Dec"]

  /** The keys of `month_dict`, in calendar order. */
  const MonthNames: seq<string> :=
    ["January", "February", "March", "April", "May", "June", "July",
     "August", "September", "October", "November", "December"]

  /** `month_dict`: full English month name to its two-digit number. */
  const MonthNumbers: map<string, string> :=
    map["January" := "01", "February" := "02", "March" := "03", "April" := "04",
        "May" := "05", "June" := "06", "July" := "07", "August" := "08",
        "September" := "09", "October" := "10", "November" := "11", "December" := "12"]

  /** `[[day, month, year], mission_string]`; `month` is `None` when the
      month word is not a key of `month_dict`, and `day` is the string
      "null" when the date has no day token. */
  datatype Heading = Heading(day: string, month: Option<string>, year: string, title: string)

  /** The uncaught `IndexError`s: `details_string[1]` when the text has no
      " - ", and `date_string[0].split(' ')[1]` in the fallback year lookup
      when the date part has neither a comma nor a space. */
  datatype HeadingError = NoTitleSeparator | NoYearToken

  /** `None` (not a dated heading), a heading, or an escaping exception. */
  datatype HeadingResult = NotADate | Parsed(heading: Heading) | Raised(error: HeadingError)

  /** `details[0:3] in [...]` */
  predicate HasMonthPrefix(text: string)
  {
    Take(text, 3) in MonthAbbreviations
  }

  /** `month_dict.get(name)` */
  function MonthLookup(name: string): (r: Option<string>)
  {
    if name in MonthNumbers then Some(MonthNumbers[name]) else None
  }

  /** A one-character day token gets a leading zero. */
  function PadDay(token: string): (r: string)
  {
    if |token| == 1 then "0" + token else token
  }

  /** The first `try`: the stripped text after the first comma, or else the
      second space-separated token of the date part, unstripped; `None` when
      that lookup raises. */
  function YearField(dateString: seq<string>): (r: Option<string>)
    requires |dateString| >= 1
  {
    if |dateString| >= 2 then Some(Strip(dateString[1]))
    else
      var words := Split(dateString[0], " ");
      if |words| >= 2 then Some(words[1]) else None
  }

  /** The second `try`: the padded second space-separated token, or "null"
      when there is none. */
  function DayField(monthDay: seq<string>): (r: string)
    requires |monthDay| >= 1
  {
    if |monthDay| >= 2 then PadDay(monthDay[1]) else "null"
  }

  /** `process_h2(tag)` applied to `tag.get_text()`. */
  function ParseHeading(text: string): (r: HeadingResult)
  {
    if !HasMonthPrefix(text) then NotADate
    else
      var details := Split(text, " - ");
      if |details| < 2 then Raised(NoTitleSeparator)
      else DateFields(details[0], Strip(details[1]))
  }

  /** The body of `process_h2` after the title has been taken: the date part
      split on ',' and on ' ' into year, month and day. */
  function DateFields(datePart: string, mission: string): (r: HeadingResult)
  {
    var dateString := Split(datePart, ",");
    match YearField(dateString)
    case None => Raised(NoYearToken)
    case Some(year) =>
      var monthDay := Split(dateString[0], " ");
      Parsed(Heading(DayField(monthDay), MonthLookup(monthDay[0]), year, mission))
  }

  // ---------------------------------------------------------------------
  // Facts about the separators

  lemma ContainsCharIff(s: string, c: char)
    ensures Contains(s, [c]) <==> c in s
  {
    if c in s {
      var i :| 0 <= i < |s| && s[i] == c;
      assert MatchAt(s, [c], i);
    }
    if Contains(s, [c]) {
      var i: nat :| i <= |s| && MatchAt(s, [c], i);
      assert s[i..i + 1][0] == s[i];
    }
  }

  /** Splitting on a character the string lacks gives the string back whole. */
  lemma SplitCharAbsent(s: string, c: char)
    requires c !in s
    ensures Split(s, [c]) == [s]
  {
    ContainsCharIff(s, c);
    SplitSingleIff(s, [c]);
    SplitJoin(s, [c]);
  }

  /** A date part without '-' holds no " - ", not even one that would run
      into the separator that follows it. */
  lemma DashFreeNoSeparator(a: string)
    requires '-' !in a
    ensures !Contains(a + " -", " - ")
  {
    var t := a + " -";
    forall i: nat | i <= |t| ensures !MatchAt(t, " - ", i) {
      if i + 3 <= |t| {
        if i + 1 < |a| {
          assert t[i + 1] == a[i + 1];
        } else {
          assert t[i + 1] == ' ';
        }
        assert t[i..i + 3][1] == t[i + 1];
      }
    }
  }

  /** A text without '-' holds no " - ". */
  lemma DashFreeText(s: string)
    requires '-' !in s
    ensures !Contains(s, " - ")
  {
    forall i: nat | i <= |s| ensures !MatchAt(s, " - ", i) {
      if i + 3 <= |s| {
        assert s[i..i + 3][1] == s[i + 1];
      }
    }
  }

  lemma SplitCharAfter(a: string, c: char, b: string)
    requires c !in a
    ensures Split(a + [c] + b, [c]) == [a] + Split(b, [c])
  {
    ContainsCharIff(a, c);
    assert a + [c][..0] == a;
    SplitAfter(a, [c], b);
  }

  /** The title field is the second " - " segment stripped: when the date
      part has no '-', that segment is the first " - " segment of what
      follows the first separator. */
  lemma SplitTitle(datePart: string, rest: string)
    requires '-' !in datePart
    ensures Split(datePart + " - " + rest, " - ") == [datePart] + Split(rest, " - ")
  {
    DashFreeNoSeparator(datePart);
    assert " - "[..2] == " -";
    SplitAfter(datePart, " - ", rest);
  }

  /** A segment free of " - " is the whole first segment. */
  lemma FirstSegmentWhole(s: string)
    requires !Contains(s, " - ")
    ensures Split(s, " - ")[0] == s
  {
    SplitSingleIff(s, " - ");
    SplitJoin(s, " - ");
  }

  lemma PrefixOfMonthWord(m: string, rest: string)
    requires |m| >= 3
    ensures HasMonthPrefix(m + rest) <==> m[..3] in MonthAbbreviations
  {
    assert (m + rest)[..3] == m[..3];
  }

  // ---------------------------------------------------------------------
  // What process_h2 returns

  /** `None` exactly when the first three characters are not a month
      abbreviation; text that does start with one never yields `None`. */
  lemma NotADateIff(text: string)
    ensures ParseHeading(text) == NotADate <==> !HasMonthPrefix(text)
  {
  }

  /** Text that begins with "Launch" is never a dated heading. */
  lemma LaunchTextIsNotADate(text: string)
    requires StartsWith(text, "Launch")
    ensures ParseHeading(text) == NotADate
  {
    assert Take(text, 3) == "Lau";
  }

  /** A dated heading without " - " raises at `details_string[1]`, and that
      is the only way this error arises. */
  lemma NoTitleSeparatorIff(text: string)
    ensures ParseHeading(text) == Raised(NoTitleSeparator) <==>
      HasMonthPrefix(text) && !Contains(text, " - ")
  {
    SplitSingleIff(text, " - ");
  }

  /** For a dated heading whose date part (before the first " - ") has no
      '-', the title is the stripped first segment after the separator and
      the rest is decided by the date part alone. */
  lemma HeadingParts(datePart: string, rest: string)
    requires '-' !in datePart
    requires HasMonthPrefix(datePart + " - " + rest)
    ensures ParseHeading(datePart + " - " + rest) ==
      DateFields(datePart, Strip(Split(rest, " - ")[0]))
  {
    SplitTitle(datePart, rest);
  }

  /** The year lookup finds nothing exactly when the date part has neither
      a comma nor a space. */
  lemma NoYearFieldIff(datePart: string)
    ensures YearField(Split(datePart, ",")) == None <==> ',' !in datePart && ' ' !in datePart
  {
    var dateString := Split(datePart, ",");
    ContainsCharIff(datePart, ',');
    SplitSingleIff(datePart, ",");
    if |dateString| == 1 {
      SplitJoin(datePart, ",");
      assert dateString[0] == datePart;
      ContainsCharIff(datePart, ' ');
      SplitSingleIff(datePart, " ");
    }
  }

  /** For a dated heading whose date part holds no '-': the fallback year
      lookup raises exactly when the date part has neither a comma nor a
      space ("January - X"). */
  lemma NoYearTokenIff(datePart: string, rest: string)
    requires '-' !in datePart
    requires HasMonthPrefix(datePart + " - " + rest)
    ensures ParseHeading(datePart + " - " + rest) == Raised(NoYearToken) <==>
      ',' !in datePart && ' ' !in datePart
  {
    HeadingParts(datePart, rest);
    NoYearFieldIff(datePart);
  }

  lemma ExactDateFields(m: string, d: string, y: string, mission: string)
    requires ' ' !in m && ',' !in m
    requires ' ' !in d && ',' !in d
    requires ',' !in y
    ensures DateFields(m + " " + d + ", " + y, mission) ==
      Parsed(Heading(PadDay(d), MonthLookup(m), Strip(y), mission))
  {
    assert m + " " + d + ", " + y == (m + " " + d) + [','] + (" " + y);
    SplitCharAfter(m + " " + d, ',', " " + y);
    SplitCharAbsent(" " + y, ',');
    StripLeadingSpace(' ', y);
    SplitCharAfter(m, ' ', d);
    SplitCharAbsent(d, ' ');
  }

  lemma MonthOnlyFields(m: string, y: string, mission: string)
    requires ' ' !in m && ',' !in m
    requires ',' !in y
    ensures DateFields(m + ", " + y, mission) ==
      Parsed(Heading("null", MonthLookup(m), Strip(y), mission))
  {
    assert m + ", " + y == m + [','] + (" " + y);
    SplitCharAfter(m, ',', " " + y);
    SplitCharAbsent(" " + y, ',');
    StripLeadingSpace(' ', y);
    SplitCharAbsent(m, ' ');
  }

  lemma NoCommaFields(m: string, y: string, mission: string)
    requires ' ' !in m && ',' !in m
    requires ' ' !in y && ',' !in y
    ensures DateFields(m + " " + y, mission) ==
      Parsed(Heading(PadDay(y), MonthLookup(m), y, mission))
  {
    SplitCharAbsent(m + " " + y, ',');
    SplitCharAfter(m, ' ', y);
    SplitCharAbsent(y, ' ');
  }

  /** "Month D, YYYY - Title": the day token padded to two characters when
      it has one, the month number from the table, the year and the title
      stripped. */
  lemma ExactDate(m: string, d: string, y: string, title: string)
    requires |m| >= 3 && m[..3] in MonthAbbreviations
    requires ' ' !in m && ',' !in m && '-' !in m
    requires ' ' !in d && ',' !in d && '-' !in d
    requires ',' !in y && '-' !in y
    ensures ParseHeading(m + " " + d + ", " + y + " - " + title) ==
      Parsed(Heading(if |d| == 1 then "0" + d else d, MonthLookup(m), Strip(y),
                     Strip(Split(title, " - ")[0])))
  {
    var datePart := m + " " + d + ", " + y;
    PrefixOfMonthWord(m, " " + d + ", " + y + " - " + title);
    assert datePart + " - " + title == m + (" " + d + ", " + y + " - " + title);
    HeadingParts(datePart, title);
    ExactDateFields(m, d, y, Strip(Split(title, " - ")[0]));
  }

  /** "Month, YYYY - Title": no day token, so the day is "null"; the year is
      the stripped text after the comma. */
  lemma MonthOnlyDate(m: string, y: string, title: string)
    requires |m| >= 3 && m[..3] in MonthAbbreviations
    requires ' ' !in m && ',' !in m && '-' !in m
    requires ',' !in y && '-' !in y
    ensures ParseHeading(m + ", " + y + " - " + title) ==
      Parsed(Heading("null", MonthLookup(m), Strip(y), Strip(Split(title, " - ")[0])))
  {
    var datePart := m + ", " + y;
    PrefixOfMonthWord(m, ", " + y + " - " + title);
    assert datePart + " - " + title == m + (", " + y + " - " + title);
    HeadingParts(datePart, title);
    MonthOnlyFields(m, y, Strip(Split(title, " - ")[0]));
  }

  /** "Month YYYY - Title" (no comma): the year comes from the fallback
      lookup, unstripped, and the same token is also taken as the day, padded
      only if it is one character long. */
  lemma NoCommaDate(m: string, y: string, title: string)
    requires |m| >= 3 && m[..3] in MonthAbbreviations
    requires ' ' !in m && ',' !in m && '-' !in m
    requires ' ' !in y && ',' !in y && '-' !in y
    ensures ParseHeading(m + " " + y + " - " + title) ==
      Parsed(Heading(if |y| == 1 then "0" + y else y, MonthLookup(m), y,
                     Strip(Split(title, " - ")[0])))
  {
    var datePart := m + " " + y;
    PrefixOfMonthWord(m, " " + y + " - " + title);
    assert datePart + " - " + title == m + (" " + y + " - " + title);
    HeadingParts(datePart, title);
    NoCommaFields(m, y, Strip(Split(title, " - ")[0]));
  }

  /** A title with no '-' is its own first " - " segment, so the title
      field is that title stripped. */
  lemma PlainTitle(title: string)
    requires '-' !in title
    ensures Strip(Split(title, " - ")[0]) == Strip(title)
  {
    DashFreeText(title);
    FirstSegmentWhole(title);
  }

  /** "January 3, 2023 - SpaceX Falcon 9, Transporter 6" and every heading of
      its shape, whose title has no '-': the title field is the stripped
      title. */
  lemma ExactDatePlainTitle(m: string, d: string, y: string, title: string)
    requires |m| >= 3 && m[..3] in MonthAbbreviations
    requires ' ' !in m && ',' !in m && '-' !in m
    requires ' ' !in d && ',' !in d && '-' !in d
    requires ',' !in y && '-' !in y
    requires '-' !in title
    ensures ParseHeading(m + " " + d + ", " + y + " - " + title) ==
      Parsed(Heading(if |d| == 1 then "0" + d else d, MonthLookup(m), Strip(y), Strip(title)))
  {
    ExactDate(m, d, y, title);
    PlainTitle(title);
  }

  /** A month word that passes the prefix test but is not a key of
      `month_dict` ("Sept") still yields a record, with no month number. */
  lemma UnknownMonthStillParsed(m: string, d: string, y: string, title: string)
    requires |m| >= 3 && m[..3] in MonthAbbreviations && m !in MonthNames
    requires ' ' !in m && ',' !in m && '-' !in m
    requires ' ' !in d && ',' !in d && '-' !in d
    requires ',' !in y && '-' !in y
    ensures ParseHeading(m + " " + d + ", " + y + " - " + title).Parsed?
    ensures ParseHeading(m + " " + d + ", " + y + " - " + title).heading.month == None
  {
    ExactDate(m, d, y, title);
    MonthLookupTable(m);
  }

  /** The two-digit decimal numeral of `n`, with a leading zero below 10. */
  function TwoDigits(n: nat): (r: string)
    requires n < 100
    ensures |r| == 2 && '0' <= r[0] <= '9' && '0' <= r[1] <= '9'
    ensures (r[0] as int - 48) * 10 + (r[1] as int - 48) == n
  {
    [(48 + n / 10) as char, (48 + n % 10) as char]
  }

  /** The month field: the twelve full month names map to "01" ... "12" in
      calendar order, and any other word maps to `None`. */
  lemma MonthLookupTable(name: string)
    ensures MonthLookup(name).Some? <==> name in MonthNames
    ensures forall i :: 0 <= i < 12 ==> MonthLookup(MonthNames[i]) == Some(TwoDigits(i + 1))
  {
  }
}
