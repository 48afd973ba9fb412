/** The tag-scanning loop of `process`: a two-state scanner over the page's
    `h2` and `p` tags, in document order. A dated `<h2 id ...>` heading opens
    a record; the next tag whose text begins with "Launch" completes it and
    the completed record is printed.

    The specification `Scan` takes the heading parser as a parameter, so
    that its lemmas hold for any parser (those that need it assume only that
    a "Launch" text is never a dated heading); `Process` runs the loop with
    `ParseHeading` itself. */
module Scanning {
  import opened PyStr
  import opened Headings

  /** A tag as the loop sees it: `str(tag)` and `tag.get_text()`. */
  datatype Tag = Tag(markup: string, text: string)

  /** A printed record: `[[day, month, year], mission_string, launch_text]`. */
  datatype Mission = Mission(heading: Heading, detail: string)

  /** What `this_mission` holds: `[]`, the heading just opened, or the
      record after the launch text has been appended to it. */
  datatype OpenRecord = NoMission | Open(heading: Heading) | Completed(mission: Mission)

  /** `ctrl_flag` together with the record it guards. */
  datatype Scanner = Idle | Capturing(open: Heading)

  /** Whether the loop ran to the end or an exception escaped `process_h2`. */
  datatype Outcome = Finished | Failed(error: HeadingError)

  /** The scanner state, the records printed so far, and the outcome. */
  datatype Trace = Trace(scanner: Scanner, printed: seq<Mission>, outcome: Outcome)

  /** A heading parser in the role of `process_h2`. */
  type Parser = string -> HeadingResult

  /** `str(tag)[0:6] == "<h2 id"` */
  predicate IsHeadingTag(t: Tag)
  {
    StartsWith(t.markup, "<h2 id")
  }

  /** `tag.get_text()[0:6] == "Launch"` */
  predicate IsLaunchText(t: Tag)
  {
    StartsWith(t.text, "Launch")
  }

  /** No "Launch" text is a dated heading for this parser. */
  ghost predicate RejectsLaunch(parse: Parser)
  {
    forall s :: StartsWith(s, "Launch") ==> parse(s) == NotADate
  }

  /** What the heading branch makes of a tag: the parser's result for a
      heading tag, nothing for any other tag. */
  function HeadingOf(parse: Parser, t: Tag): (r: HeadingResult)
  {
    if IsHeadingTag(t) then parse(t.text) else NotADate
  }

  /** The detail branch: while capturing, a "Launch" text completes and
      prints the open record and the scanner goes idle. */
  function DetailStep(tr: Trace, t: Tag): (r: Trace)
  {
    if tr.scanner.Capturing? && IsLaunchText(t) then
      Trace(Idle, tr.printed + [Mission(tr.scanner.open, t.text)], tr.outcome)
    else tr
  }

  /** One iteration of the loop. An idle scanner holds no record (the loop
      resets `this_mission` to `[]`); once an exception has escaped, nothing
      further happens. */
  function Step(parse: Parser, tr: Trace, t: Tag): (r: Trace)
  {
    if tr.outcome.Failed? then tr
    else
      match HeadingOf(parse, t)
      case Raised(e) => Trace(tr.scanner, tr.printed, Failed(e))
      case Parsed(h) => DetailStep(Trace(Capturing(h), tr.printed, Finished), t)
      case NotADate => DetailStep(tr, t)
  }

  /** The loop's effect on a sequence of tags, starting idle. */
  function Scan(parse: Parser, tags: seq<Tag>): (r: Trace)
    decreases |tags|
  {
    if |tags| == 0 then Trace(Idle, [], Finished)
    else Step(parse, Scan(parse, tags[..|tags| - 1]), tags[|tags| - 1])
  }

  /** The abstract scanner state of the loop's `ctrl_flag` and `this_mission`. */
  function ScannerOf(ctrlFlag: bool, thisMission: OpenRecord): Scanner
    requires ctrlFlag ==> thisMission.Open?
  {
    if ctrlFlag then Capturing(thisMission.heading) else Idle
  }

  lemma ScanLast(parse: Parser, tags: seq<Tag>, i: nat)
    requires i < |tags|
    ensures Scan(parse, tags[..i + 1]) == Step(parse, Scan(parse, tags[..i]), tags[i])
  {
    assert tags[..i + 1][..i] == tags[..i];
  }

  /** Once the parser has raised, the rest of the tags change nothing. */
  lemma {:induction false} ScanStaysFailed(parse: Parser, tags: seq<Tag>, n: nat)
    requires n <= |tags|
    requires Scan(parse, tags[..n]).outcome.Failed?
    ensures Scan(parse, tags) == Scan(parse, tags[..n])
    decreases |tags| - n
  {
    if n < |tags| {
      ScanLast(parse, tags, n);
      ScanStaysFailed(parse, tags, n + 1);
    } else {
      assert tags[..n] == tags;
    }
  }

  /** The loop of `process`, with the heading parser passed in. It prints
      each completed record (here: appends it to `printed`) and stops when
      the parser raises. */
  method Process(parse: Parser, tags: seq<Tag>) returns (printed: seq<Mission>, outcome: Outcome)
    ensures printed == Scan(parse, tags).printed
    ensures outcome == Scan(parse, tags).outcome
  {
    printed := [];
    outcome := Finished;
    var ctrlFlag := false;
    var thisMission := NoMission;
    var i := 0;
    while i < |tags|
      invariant 0 <= i <= |tags|
      invariant ctrlFlag ==> thisMission.Open?
      invariant Scan(parse, tags[..i]) == Trace(ScannerOf(ctrlFlag, thisMission), printed, Finished)
    {
      ScanLast(parse, tags, i);
      var tag := tags[i];
      if !ctrlFlag {
        thisMission := NoMission;
      }
      if StartsWith(tag.markup, "<h2 id") {
        var mission := parse(tag.text);
        match mission
        case Raised(e) =>
          outcome := Failed(e);
          ScanStaysFailed(parse, tags, i + 1);
          return;
        case Parsed(h) =>
          thisMission := Open(h);
          ctrlFlag := true;
        case NotADate =>
      }
      if ctrlFlag {
        if StartsWith(tag.text, "Launch") {
          thisMission := Completed(Mission(thisMission.heading, tag.text));
          printed := printed + [thisMission.mission];
          ctrlFlag := false;
        }
      }
      i := i + 1;
    }
    assert tags[..i] == tags;
  }

  /** `process(soup)`: the loop with `process_h2` as the heading parser. */
  method ProcessSchedule(tags: seq<Tag>) returns (printed: seq<Mission>, outcome: Outcome)
    ensures printed == Scan(ParseHeading, tags).printed
    ensures outcome == Scan(ParseHeading, tags).outcome
  {
    printed, outcome := Process(ParseHeading, tags);
  }

  /** `process_h2` never takes a "Launch" text for a dated heading. */
  lemma ParseHeadingRejectsLaunch()
    ensures RejectsLaunch(ParseHeading)
  {
    forall s | StartsWith(s, "Launch") ensures ParseHeading(s) == NotADate {
      LaunchTextIsNotADate(s);
    }
  }

  // ---------------------------------------------------------------------
  // One step of the scanner

  /** A dated heading opens a record, replacing any open one, whatever the
      state; it never completes a record in the same step. */
  lemma StepOpensOnHeading(parse: Parser, tr: Trace, t: Tag, h: Heading)
    requires RejectsLaunch(parse)
    requires tr.outcome == Finished
    requires HeadingOf(parse, t) == Parsed(h)
    ensures Step(parse, tr, t) == Trace(Capturing(h), tr.printed, Finished)
  {
  }

  /** While idle, every tag other than a dated heading is ignored, "Launch"
      texts included. */
  lemma StepIdleIgnores(parse: Parser, tr: Trace, t: Tag)
    requires tr.scanner == Idle && tr.outcome == Finished
    requires HeadingOf(parse, t) == NotADate
    ensures Step(parse, tr, t) == tr
  {
  }

  /** While capturing, a tag that is neither a dated heading nor a "Launch"
      text (a rejected heading among them) leaves everything unchanged. */
  lemma StepCapturingKeeps(parse: Parser, tr: Trace, t: Tag)
    requires tr.scanner.Capturing? && tr.outcome == Finished
    requires HeadingOf(parse, t) == NotADate && !IsLaunchText(t)
    ensures Step(parse, tr, t) == tr
  {
  }

  /** While capturing, a "Launch" text completes the open record: it is
      printed with that text appended and the scanner goes idle. */
  lemma StepCompletes(parse: Parser, tr: Trace, t: Tag)
    requires tr.scanner.Capturing? && tr.outcome == Finished
    requires HeadingOf(parse, t) == NotADate && IsLaunchText(t)
    ensures Step(parse, tr, t) == Trace(Idle, tr.printed + [Mission(tr.scanner.open, t.text)], Finished)
  {
  }

  /** A step prints at most one record, and only when a "Launch" text
      arrives while capturing: the open record with that text appended, after
      which the scanner is idle. */
  lemma StepPrintsOnlyOnLaunch(parse: Parser, tr: Trace, t: Tag)
    requires RejectsLaunch(parse)
    ensures Step(parse, tr, t).printed == tr.printed ||
      (tr.outcome == Finished && tr.scanner.Capturing? && IsLaunchText(t) &&
       Step(parse, tr, t) == Trace(Idle, tr.printed + [Mission(tr.scanner.open, t.text)], Finished))
  {
  }

  /** An exception from the parser keeps what was printed and ends the run. */
  lemma StepFails(parse: Parser, tr: Trace, t: Tag, e: HeadingError)
    requires tr.outcome == Finished
    requires HeadingOf(parse, t) == Raised(e)
    ensures Step(parse, tr, t) == Trace(tr.scanner, tr.printed, Failed(e))
  {
  }

  /** A step leaves the scanner as it was, makes it idle, or opens the
      heading of the tag just read. */
  lemma StepScanner(parse: Parser, tr: Trace, t: Tag)
    ensures Step(parse, tr, t).scanner == tr.scanner || Step(parse, tr, t).scanner == Idle ||
      (HeadingOf(parse, t).Parsed? && Step(parse, tr, t).scanner == Capturing(HeadingOf(parse, t).heading))
  {
  }

  // ---------------------------------------------------------------------
  // The whole scan

  /** Number of dated headings among the tags. */
  function DatedHeadings(parse: Parser, tags: seq<Tag>): nat
    decreases |tags|
  {
    if |tags| == 0 then 0
    else
      var bump := if HeadingOf(parse, tags[|tags| - 1]).Parsed? then 1 else 0;
      DatedHeadings(parse, tags[..|tags| - 1]) + bump
  }

  /** Number of tags whose text begins with "Launch". */
  function LaunchTexts(tags: seq<Tag>): nat
    decreases |tags|
  {
    if |tags| == 0 then 0
    else LaunchTexts(tags[..|tags| - 1]) + (if IsLaunchText(tags[|tags| - 1]) then 1 else 0)
  }

  /** Each dated heading gets at most one detail: the printed records, plus
      the one still open, never outnumber the dated headings, and there are
      no more records than "Launch" texts. */
  lemma {:induction false} AtMostOneDetailPerHeading(parse: Parser, tags: seq<Tag>)
    requires RejectsLaunch(parse)
    ensures |Scan(parse, tags).printed| + (if Scan(parse, tags).scanner.Capturing? then 1 else 0) <=
      DatedHeadings(parse, tags)
    ensures |Scan(parse, tags).printed| <= LaunchTexts(tags)
    decreases |tags|
  {
    if |tags| > 0 {
      var init := tags[..|tags| - 1];
      AtMostOneDetailPerHeading(parse, init);
      StepPrintsOnlyOnLaunch(parse, Scan(parse, init), tags[|tags| - 1]);
    }
  }

  /** `m` pairs the result of a dated heading tag with the text of a later
      tag that begins with "Launch". */
  ghost predicate PrintedFrom(parse: Parser, tags: seq<Tag>, m: Mission)
  {
    exists j, l ::
      0 <= j < l < |tags| && HeadingOf(parse, tags[j]) == Parsed(m.heading) &&
      IsLaunchText(tags[l]) && tags[l].text == m.detail
  }

  /** `h` is what the parser returned for one of the heading tags. */
  ghost predicate OpenedFrom(parse: Parser, tags: seq<Tag>, h: Heading)
  {
    exists j :: 0 <= j < |tags| && HeadingOf(parse, tags[j]) == Parsed(h)
  }

  /** Every record printed so far, and the open one, trace back to tags. */
  ghost predicate Traceable(parse: Parser, tags: seq<Tag>)
  {
    (forall k :: 0 <= k < |Scan(parse, tags).printed| ==>
       PrintedFrom(parse, tags, Scan(parse, tags).printed[k])) &&
    (Scan(parse, tags).scanner.Capturing? ==> OpenedFrom(parse, tags, Scan(parse, tags).scanner.open))
  }

  lemma PrintedFromExtends(parse: Parser, init: seq<Tag>, t: Tag, m: Mission)
    requires PrintedFrom(parse, init, m)
    ensures PrintedFrom(parse, init + [t], m)
  {
    var j, l :| 0 <= j < l < |init| && HeadingOf(parse, init[j]) == Parsed(m.heading) &&
      IsLaunchText(init[l]) && init[l].text == m.detail;
    assert (init + [t])[j] == init[j] && (init + [t])[l] == init[l];
  }

  lemma OpenedFromExtends(parse: Parser, init: seq<Tag>, t: Tag, h: Heading)
    requires OpenedFrom(parse, init, h)
    ensures OpenedFrom(parse, init + [t], h)
  {
    var j :| 0 <= j < |init| && HeadingOf(parse, init[j]) == Parsed(h);
    assert (init + [t])[j] == init[j];
  }

  lemma PrintedFromCompletes(parse: Parser, init: seq<Tag>, t: Tag, h: Heading)
    requires OpenedFrom(parse, init, h)
    requires IsLaunchText(t)
    ensures PrintedFrom(parse, init + [t], Mission(h, t.text))
  {
    var j :| 0 <= j < |init| && HeadingOf(parse, init[j]) == Parsed(h);
    var tags := init + [t];
    assert tags[j] == init[j] && tags[|init|] == t;
  }

  lemma {:induction false} TraceableStep(parse: Parser, init: seq<Tag>, t: Tag)
    requires RejectsLaunch(parse)
    requires Traceable(parse, init)
    ensures Traceable(parse, init + [t])
  {
    var tags := init + [t];
    assert tags[..|init|] == init && tags[|init|] == t;
    var before := Scan(parse, init);
    var after := Scan(parse, tags);
    assert after == Step(parse, before, t);
    StepPrintsOnlyOnLaunch(parse, before, t);
    StepScanner(parse, before, t);
    forall k | 0 <= k < |after.printed| ensures PrintedFrom(parse, tags, after.printed[k]) {
      if k < |before.printed| {
        PrintedFromExtends(parse, init, t, before.printed[k]);
      } else {
        PrintedFromCompletes(parse, init, t, before.scanner.open);
      }
    }
    if after.scanner.Capturing? {
      if after.scanner == before.scanner {
        OpenedFromExtends(parse, init, t, before.scanner.open);
      } else {
        assert HeadingOf(parse, tags[|init|]) == Parsed(after.scanner.open);
      }
    }
  }

  /** Where a printed record comes from: its heading is what the parser
      returned for some dated heading tag, and its detail is the text of a
      later tag that begins with "Launch". The open record likewise comes
      from a dated heading. */
  lemma {:induction false} PrintedProvenance(parse: Parser, tags: seq<Tag>)
    requires RejectsLaunch(parse)
    ensures forall k :: 0 <= k < |Scan(parse, tags).printed| ==>
      PrintedFrom(parse, tags, Scan(parse, tags).printed[k])
    ensures Scan(parse, tags).scanner.Capturing? ==>
      OpenedFrom(parse, tags, Scan(parse, tags).scanner.open)
    decreases |tags|
  {
    if |tags| > 0 {
      var init := tags[..|tags| - 1];
      PrintedProvenance(parse, init);
      TraceableStep(parse, init, tags[|tags| - 1]);
      assert init + [tags[|tags| - 1]] == tags;
    }
  }

  /** Records once printed stay printed: the records printed for a prefix
      of the tags begin the records printed for all of them. */
  lemma {:induction false} PrintedGrows(parse: Parser, tags: seq<Tag>, n: nat)
    requires RejectsLaunch(parse)
    requires n <= |tags|
    ensures Scan(parse, tags[..n]).printed <= Scan(parse, tags).printed
    decreases |tags| - n
  {
    if n < |tags| {
      ScanLast(parse, tags, n);
      StepPrintsOnlyOnLaunch(parse, Scan(parse, tags[..n]), tags[n]);
      PrintedGrows(parse, tags, n + 1);
    } else {
      assert tags[..n] == tags;
    }
  }
}
