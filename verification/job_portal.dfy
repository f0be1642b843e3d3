/**
 The data rules behind the job portal window: an ordered list of job titles,
 an ordered list of application records, and the text each of the five
 buttons appends to the output area.

 Each button becomes a pure transition that returns the new registry and the
 lines it appends; `Press` then applies those lines to the output text.
 */
module JobPortal {
  import opened Text

  datatype Registry = Registry(jobPostings: seq<string>, applications: seq<string>)

  const EmptyRegistry := Registry([], [])

  const EmptyTitleError := "Error: Job title cannot be empty."
  const MissingFieldsError := "Error: Both job title and applicant name must be provided."
  const JobsHeading := "Available Jobs:"
  const NoJobsText := "No jobs available at the moment."
  const ApplicationsHeading := "Job Applications:"
  const NoApplicationsText := "No applications received yet."

  function PostedLine(title: string): string {
    "Job posted successfully: " + title
  }

  function NotFoundLine(title: string): string {
    "Error: Job title '" + title + "' not found."
  }

  function AppliedLine(name: string, title: string): string {
    name + " has applied for '" + title + "'."
  }

  /** The record stored in `applications` for an accepted application. */
  function ApplicationRecord(name: string, title: string): string {
    name + " applied for: " + title
  }

  /** The registry after a button press, and the lines it appended to the
      output area (each followed by "\n"). */
  datatype Outcome = Outcome(registry: Registry, lines: seq<string>)

  // ---------------------------------------------------------------------
  // Post Job

  /** Post Job: the trimmed title is appended (no uniqueness check) unless it
      is empty, in which case only an error line is written. The application
      list is never touched. */
  function PostJob(r: Registry, titleField: string): (o: Outcome)
    ensures o.registry.applications == r.applications
    ensures var t := Trim(titleField);
      t != [] ==>
        && o.registry.jobPostings == r.jobPostings + [t]
        && o.lines == [PostedLine(t)]
    ensures o.registry == r <==> AllTrimmable(titleField)
    ensures AllTrimmable(titleField) ==> o.lines == [EmptyTitleError]
  {
    var t := Trim(titleField);
    if t != [] then
      Outcome(Registry(r.jobPostings + [t], r.applications), [PostedLine(t)])
    else
      Outcome(r, [EmptyTitleError])
  }

  /** Posting the same title twice stores it twice. */
  lemma PostTwiceKeepsBoth(r: Registry, titleField: string)
    requires !AllTrimmable(titleField)
    ensures var once := PostJob(r, titleField).registry;
      var twice := PostJob(once, titleField).registry;
      && |twice.jobPostings| == |r.jobPostings| + 2
      && twice.jobPostings[|r.jobPostings|] == twice.jobPostings[|r.jobPostings| + 1]
      == Trim(titleField)
  {
  }

  // ---------------------------------------------------------------------
  // Apply for Job

  /** Whether Apply for Job records an application: both trimmed fields are
      non-empty and the trimmed title is, character for character, one of the
      posted titles. */
  predicate ApplyAccepted(r: Registry, titleField: string, nameField: string) {
    var t := Trim(titleField);
    var n := Trim(nameField);
    t != [] && n != [] && t in r.jobPostings
  }

  /** Apply for Job: an accepted application appends exactly one record; a
      rejected one leaves the registry as it is and writes the error for the
      first failing check. The posting list is never touched. */
  function ApplyForJob(r: Registry, titleField: string, nameField: string): (o: Outcome)
    ensures o.registry.jobPostings == r.jobPostings
    ensures |o.lines| == 1
    ensures var t := Trim(titleField); var n := Trim(nameField);
      ApplyAccepted(r, titleField, nameField) ==>
        && o.registry.applications == r.applications + [ApplicationRecord(n, t)]
        && o.lines == [AppliedLine(n, t)]
    ensures !ApplyAccepted(r, titleField, nameField) ==> o.registry == r
    ensures AllTrimmable(titleField) || AllTrimmable(nameField) ==>
      o.lines == [MissingFieldsError]
    ensures var t := Trim(titleField);
      t != [] && !AllTrimmable(nameField) && t !in r.jobPostings ==>
        o.lines == [NotFoundLine(t)]
  {
    var t := Trim(titleField);
    var n := Trim(nameField);
    if t != [] && n != [] then
      if t in r.jobPostings then
        Outcome(Registry(r.jobPostings, r.applications + [ApplicationRecord(n, t)]),
                [AppliedLine(n, t)])
      else
        Outcome(r, [NotFoundLine(t)])
    else
      Outcome(r, [MissingFieldsError])
  }

  // ---------------------------------------------------------------------
  // View Jobs and View Applications

  /** The line of posting number `i` (0-based) in the listing: its 1-based
      number, ". ", then the title. */
  function NumberedLine(i: nat, title: string): (line: string)
    ensures |line| == |NatToDecimal(i + 1)| + 2 + |title|
    ensures line[..|NatToDecimal(i + 1)|] == NatToDecimal(i + 1)
    ensures line[|NatToDecimal(i + 1)|..] == ". " + title
  {
    NatToDecimal(i + 1) + ". " + title
  }

  /** The `for` loop of View Jobs: one numbered line per posting. */
  method NumberedListing(postings: seq<string>) returns (lines: seq<string>)
    ensures |lines| == |postings|
    ensures forall i :: 0 <= i < |postings| ==> lines[i] == NumberedLine(i, postings[i])
  {
    lines := [];
    var i := 0;
    while i < |postings|
      invariant 0 <= i <= |postings|
      invariant |lines| == i
      invariant forall j :: 0 <= j < i ==> lines[j] == NumberedLine(j, postings[j])
    {
      lines := lines + [NumberedLine(i, postings[i])];
      i := i + 1;
    }
  }

  /** View Jobs: an empty line and the heading (the source appends
      "\nAvailable Jobs:\n"), then the placeholder when there are no postings
      and otherwise one numbered line per posting in insertion order. */
  function JobsView(postings: seq<string>): (lines: seq<string>)
    ensures |lines| == 2 + (if postings == [] then 1 else |postings|)
    ensures lines[0] == "" && lines[1] == JobsHeading
    ensures lines[2] == NoJobsText <==> postings == []
    ensures forall i :: 0 <= i < |postings| ==> lines[2 + i] == NumberedLine(i, postings[i])
  {
    if postings == [] then ["", JobsHeading, NoJobsText]
    else
      var items := seq(|postings|, i requires 0 <= i < |postings| => NumberedLine(i, postings[i]));
      var lines := ["", JobsHeading] + items;
      assert NatToDecimal(1) == "1";
      assert lines[2] == items[0] == NumberedLine(0, postings[0]);
      assert lines[2][0] == '1' != NoJobsText[0];
      lines
  }

  /** View Applications: an empty line and the heading, then the placeholder
      when there are no applications and otherwise every record in insertion
      order. */
  function ApplicationsView(applications: seq<string>): (lines: seq<string>)
    ensures |lines| >= 3 && lines[..2] == ["", ApplicationsHeading]
    ensures applications == [] ==> lines[2..] == [NoApplicationsText]
    ensures applications != [] ==> lines[2..] == applications
  {
    if applications == [] then ["", ApplicationsHeading, NoApplicationsText]
    else ["", ApplicationsHeading] + applications
  }

  /** The job listing determines the posting list: two registries that list
      the same lines hold the same titles in the same order. */
  lemma JobsViewInjective(p: seq<string>, q: seq<string>)
    requires JobsView(p) == JobsView(q)
    ensures p == q
  {
    var lines := JobsView(p);
    if p == [] || q == [] {
      assert lines[2] == NoJobsText;
    } else {
      assert |p| == |q|;
      forall i | 0 <= i < |p|
        ensures p[i] == q[i]
      {
        var prefix := NatToDecimal(i + 1) + ". ";
        assert lines[2 + i] == prefix + p[i] == prefix + q[i];
        assert p[i] == (prefix + p[i])[|prefix|..];
        assert q[i] == (prefix + q[i])[|prefix|..];
      }
    }
  }

  /** When no title contains a line break, the text View Jobs appends splits
      back into exactly the listing's lines. */
  lemma JobsTextLines(postings: seq<string>)
    requires forall i :: 0 <= i < |postings| ==> HasNoNewline(postings[i])
    ensures SplitLines(Terminated(JobsView(postings))) == JobsView(postings)
  {
    var lines := JobsView(postings);
    forall j | 0 <= j < |lines|
      ensures HasNoNewline(lines[j])
    {
      if j >= 2 && postings != [] {
        var d := NatToDecimal(j - 2 + 1);
        assert lines[j] == d + ". " + postings[j - 2];
        assert HasNoNewline(d);
      }
    }
    SplitTerminated(lines);
  }

  /** When no record contains a line break, the text View Applications
      appends splits back into exactly the view's lines. */
  lemma ApplicationsTextLines(applications: seq<string>)
    requires forall i :: 0 <= i < |applications| ==> HasNoNewline(applications[i])
    ensures SplitLines(Terminated(ApplicationsView(applications))) == ApplicationsView(applications)
  {
    var lines := ApplicationsView(applications);
    forall j | 0 <= j < |lines|
      ensures HasNoNewline(lines[j])
    {
      if j >= 2 && applications != [] {
        assert lines[j] == applications[j - 2];
      }
    }
    SplitTerminated(lines);
  }

  // ---------------------------------------------------------------------
  // The window

  datatype Button =
    | PostJobButton(titleField: string)
    | ViewJobsButton
    | ApplyButton(titleField: string, nameField: string)
    | ViewApplicationsButton
    | ClearButton

  /** The registry change and the appended lines of every button but Clear. */
  function Handle(r: Registry, b: Button): (o: Outcome)
    requires !b.ClearButton?
    ensures !b.PostJobButton? ==> o.registry.jobPostings == r.jobPostings
    ensures !b.ApplyButton? ==> o.registry.applications == r.applications
    ensures b.ViewJobsButton? || b.ViewApplicationsButton? ==> o.registry == r
  {
    match b
    case PostJobButton(t) => PostJob(r, t)
    case ViewJobsButton => Outcome(r, JobsView(r.jobPostings))
    case ApplyButton(t, n) => ApplyForJob(r, t, n)
    case ViewApplicationsButton => Outcome(r, ApplicationsView(r.applications))
  }

  datatype Portal = Portal(registry: Registry, output: string)

  /** One button press. Clear Output empties the output text and nothing
      else; every other button only appends to the output text. */
  function Press(p: Portal, b: Button): (q: Portal)
    ensures b.ClearButton? ==> q == Portal(p.registry, "")
    ensures !b.ClearButton? ==> p.output <= q.output
    ensures q.registry.jobPostings == p.registry.jobPostings ||
      (b.PostJobButton? && q.registry.jobPostings == p.registry.jobPostings + [Trim(b.titleField)])
    ensures q.registry.applications == p.registry.applications ||
      (b.ApplyButton? && |q.registry.applications| == |p.registry.applications| + 1
        && q.registry.applications[..|p.registry.applications|] == p.registry.applications)
  {
    if b.ClearButton? then Portal(p.registry, "")
    else
      var o := Handle(p.registry, b);
      Portal(o.registry, p.output + Terminated(o.lines))
  }

  function Session(p: Portal, bs: seq<Button>): Portal
    decreases |bs|
  {
    if bs == [] then p else Session(Press(p, bs[0]), bs[1..])
  }

  // ---------------------------------------------------------------------
  // Registry invariant

  /** `app` is a record written for some posted title by a non-empty trimmed
      applicant name. */
  ghost predicate RefersToPosting(app: string, postings: seq<string>) {
    exists n: string, i: int :: 0 <= i < |postings| && n != [] && IsTrimmed(n)
      && app == ApplicationRecord(n, postings[i])
  }

  /** Every stored title is non-empty and trimmed, and every application
      names a title that is posted. */
  ghost predicate WellFormed(r: Registry) {
    && (forall i :: 0 <= i < |r.jobPostings| ==>
          r.jobPostings[i] != [] && IsTrimmed(r.jobPostings[i]))
    && (forall j :: 0 <= j < |r.applications| ==>
          RefersToPosting(r.applications[j], r.jobPostings))
  }

  lemma RefersToLongerPostings(app: string, postings: seq<string>, more: seq<string>)
    requires RefersToPosting(app, postings)
    ensures RefersToPosting(app, postings + more)
  {
    var n: string, i: int :| 0 <= i < |postings| && n != [] && IsTrimmed(n)
      && app == ApplicationRecord(n, postings[i]);
    assert (postings + more)[i] == postings[i];
  }

  lemma PostJobKeepsWellFormed(r: Registry, titleField: string)
    requires WellFormed(r)
    ensures WellFormed(PostJob(r, titleField).registry)
  {
    var o := PostJob(r, titleField).registry;
    var t := Trim(titleField);
    if t != [] {
      assert o.jobPostings == r.jobPostings + [t];
      assert o.applications == r.applications;
      forall i | 0 <= i < |o.jobPostings|
        ensures o.jobPostings[i] != [] && IsTrimmed(o.jobPostings[i])
      {
        if i < |r.jobPostings| {
          assert o.jobPostings[i] == r.jobPostings[i];
        }
      }
      forall j | 0 <= j < |o.applications|
        ensures RefersToPosting(o.applications[j], o.jobPostings)
      {
        RefersToLongerPostings(r.applications[j], r.jobPostings, [t]);
      }
    }
  }

  lemma ApplyKeepsWellFormed(r: Registry, titleField: string, nameField: string)
    requires WellFormed(r)
    ensures WellFormed(ApplyForJob(r, titleField, nameField).registry)
  {
    var o := ApplyForJob(r, titleField, nameField).registry;
    if ApplyAccepted(r, titleField, nameField) {
      var t := Trim(titleField);
      var n := Trim(nameField);
      var i :| 0 <= i < |r.jobPostings| && r.jobPostings[i] == t;
      var record := ApplicationRecord(n, t);
      assert RefersToPosting(record, r.jobPostings) by {
        assert record == ApplicationRecord(n, r.jobPostings[i]);
      }
      assert o.applications == r.applications + [record];
      forall j | 0 <= j < |o.applications|
        ensures RefersToPosting(o.applications[j], o.jobPostings)
      {
        if j < |r.applications| {
          assert o.applications[j] == r.applications[j];
        }
      }
    }
  }

  /** Every button press keeps the registry invariant. */
  lemma PressKeepsWellFormed(p: Portal, b: Button)
    requires WellFormed(p.registry)
    ensures WellFormed(Press(p, b).registry)
  {
    match b
    case PostJobButton(t) => PostJobKeepsWellFormed(p.registry, t);
    case ApplyButton(t, n) => ApplyKeepsWellFormed(p.registry, t, n);
    case _ =>
  }

  /** Over any series of presses the invariant holds, and both lists are
      append-only: the old lists stay prefixes of the new ones. */
  lemma {:induction false} SessionKeepsWellFormed(p: Portal, bs: seq<Button>)
    requires WellFormed(p.registry)
    ensures var q := Session(p, bs);
      && WellFormed(q.registry)
      && p.registry.jobPostings <= q.registry.jobPostings
      && p.registry.applications <= q.registry.applications
    decreases |bs|
  {
    if bs != [] {
      PressKeepsWellFormed(p, bs[0]);
      SessionKeepsWellFormed(Press(p, bs[0]), bs[1..]);
    }
  }

  lemma EmptyRegistryWellFormed()
    ensures WellFormed(EmptyRegistry)
  {
  }

  /** The window starts with empty lists, so the invariant holds after any
      series of presses. */
  lemma FromEmptyRegistry(bs: seq<Button>)
    ensures var q := Session(Portal(EmptyRegistry, ""), bs);
      WellFormed(q.registry)
  {
    EmptyRegistryWellFormed();
    SessionKeepsWellFormed(Portal(EmptyRegistry, ""), bs);
  }

  /** The worked example, for any titles and names: an empty title is
      refused, a title is posted, an application for it is recorded exactly
      once, and an application for a title never posted is not. */
  lemma PostThenApply(blank: string, title: string, name: string, unknown: string)
    requires AllTrimmable(blank)
    requires title != [] && IsTrimmed(title)
    requires name != [] && IsTrimmed(name)
    requires unknown != [] && IsTrimmed(unknown) && unknown != title
    ensures var r1 := PostJob(EmptyRegistry, blank).registry;
      var r2 := PostJob(r1, title).registry;
      var r3 := ApplyForJob(r2, title, name).registry;
      var r4 := ApplyForJob(r3, unknown, name).registry;
      && r1 == EmptyRegistry
      && r2.jobPostings == [title]
      && r3.applications == [name + " applied for: " + title]
      && r4 == r3
  {
    TrimOfTrimmed(title);
    TrimOfTrimmed(name);
    TrimOfTrimmed(unknown);
  }
}
