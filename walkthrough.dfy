/** Short tag sequences of the shapes the schedule page produces, run
    through the scanner: what gets printed and how the run ends. */
module Walkthrough {
  import opened PyStr
  import opened Headings
  import opened Scanning

  /** A dated heading followed by a "Launch" paragraph prints one record. */
  lemma HeadingThenLaunch(parse: Parser, t: Tag, l: Tag, h: Heading)
    requires RejectsLaunch(parse)
    requires HeadingOf(parse, t) == Parsed(h)
    requires HeadingOf(parse, l) == NotADate && IsLaunchText(l)
    ensures Scan(parse, [t, l]) == Trace(Idle, [Mission(h, l.text)], Finished)
  {
    var tags := [t, l];
    assert tags[..0] == [];
    ScanLast(parse, tags, 0);
    StepOpensOnHeading(parse, Trace(Idle, [], Finished), t, h);
    ScanLast(parse, tags, 1);
    StepCompletes(parse, Trace(Capturing(h), [], Finished), l);
    assert tags[..2] == tags;
  }

  /** The schedule's usual entry, an `<h2 id ...>` heading
      "Month D, YYYY - Title" followed by a `<p>` paragraph starting with
      "Launch", makes `process` print `[[DD, MM, YYYY], Title, paragraph]`. */
  lemma DatedEntry(markup: string, m: string, d: string, y: string, title: string, p: Tag)
    requires StartsWith(markup, "<h2 id")
    requires |m| >= 3 && m[..3] in MonthAbbreviations
    requires ' ' !in m && ',' !in m && '-' !in m
    requires ' ' !in d && ',' !in d && '-' !in d
    requires ',' !in y && '-' !in y
    requires !IsHeadingTag(p) && IsLaunchText(p)
    ensures Scan(ParseHeading, [Tag(markup, m + " " + d + ", " + y + " - " + title), p]) ==
      Trace(Idle, [Mission(Heading(if |d| == 1 then "0" + d else d, MonthLookup(m), Strip(y),
                                   Strip(Split(title, " - ")[0])), p.text)], Finished)
  {
    ExactDate(m, d, y, title);
    ParseHeadingRejectsLaunch();
    HeadingThenLaunch(ParseHeading, Tag(markup, m + " " + d + ", " + y + " - " + title), p,
      Heading(if |d| == 1 then "0" + d else d, MonthLookup(m), Strip(y), Strip(Split(title, " - ")[0])));
  }

  /** A rejected heading while capturing keeps the record open, the first
      "Launch" paragraph completes it, and a second one finds the scanner
      idle and is ignored. */
  lemma OneDetailOnly(parse: Parser, t: Tag, r: Tag, l1: Tag, l2: Tag, h: Heading)
    requires RejectsLaunch(parse)
    requires HeadingOf(parse, t) == Parsed(h)
    requires HeadingOf(parse, r) == NotADate && !IsLaunchText(r)
    requires HeadingOf(parse, l1) == NotADate && IsLaunchText(l1)
    requires HeadingOf(parse, l2) == NotADate
    ensures Scan(parse, [t, r, l1, l2]) == Trace(Idle, [Mission(h, l1.text)], Finished)
  {
    var tags := [t, r, l1, l2];
    var open := Trace(Capturing(h), [], Finished);
    var done := Trace(Idle, [Mission(h, l1.text)], Finished);
    assert tags[..0] == [];
    ScanLast(parse, tags, 0);
    StepOpensOnHeading(parse, Trace(Idle, [], Finished), t, h);
    ScanLast(parse, tags, 1);
    StepCapturingKeeps(parse, open, r);
    ScanLast(parse, tags, 2);
    StepCompletes(parse, open, l1);
    ScanLast(parse, tags, 3);
    StepIdleIgnores(parse, done, l2);
    assert tags[..4] == tags;
  }

  /** A heading that raises ends the run: the record printed before it
      stays printed and the tags after it are never looked at. */
  lemma FailureKeepsPrinted(parse: Parser, t: Tag, l1: Tag, b: Tag, later: seq<Tag>, h: Heading, e: HeadingError)
    requires RejectsLaunch(parse)
    requires HeadingOf(parse, t) == Parsed(h)
    requires HeadingOf(parse, l1) == NotADate && IsLaunchText(l1)
    requires HeadingOf(parse, b) == Raised(e)
    ensures Scan(parse, [t, l1, b] + later) == Trace(Idle, [Mission(h, l1.text)], Failed(e))
  {
    var tags := [t, l1, b] + later;
    HeadingThenLaunch(parse, t, l1, h);
    assert tags[..2] == [t, l1];
    ScanLast(parse, tags, 2);
    StepFails(parse, Scan(parse, tags[..2]), b, e);
    ScanStaysFailed(parse, tags, 3);
  }
}
