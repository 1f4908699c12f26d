/** The assembly of the report in `Main`: one section per issue that has
    changes in the window, then the list of issues created in the window.
    The report is modelled as the sequence of lines appended to it; the fixed
    text (style sheet, wording of the headings, the link to the Jira
    instance, date formats) is abstracted into the kind of line. */
module Report {
  import opened Jira
  import opened Changes
  import opened DiffHtml
  import opened Sequences

  datatype Line =
    | Preamble(days: int32)                      // style sheet and title
    | IssueHeading(key: string, summary: string) // `<h2>` of an issue with changes
    | ChangeHeading(field: string, when: int)    // `<h3>` of one change
    | DiffBlock(html: string)                    // the rendered diff of one change
    | NewIssuesHeading                           // `<h2>` and `<ul>` of the new issues
    | NewIssueEntry(key: string, summary: string)
    | NewIssuesEnd                               // `</ul>`
    | DocumentEnd                                // `</body></html>`

  /** DiffPlex's line diff of an old and a new value, taken as given. */
  type Differ = (string, string) -> seq<DiffPiece>

  /** The heading and the rendered diff of each change, in order. */
  function ChangeLines(cs: seq<Change>, differ: Differ): (ls: seq<Line>)
    ensures |ls| == 2 * |cs|
    ensures forall k :: 0 <= k < |cs| ==>
      ls[2 * k] == ChangeHeading(cs[k].field, cs[k].when) &&
      ls[2 * k + 1] == DiffBlock(Rendered(differ(cs[k].from, cs[k].to)))
  {
    if cs == [] then []
    else
      var c := cs[|cs| - 1];
      ChangeLines(cs[..|cs| - 1], differ) + [ChangeHeading(c.field, c.when), DiffBlock(Rendered(differ(c.from, c.to)))]
  }

  /** The section of one issue: nothing if it has no changes in the window. */
  function Section(issue: Issue, cutoff: int, differ: Differ): seq<Line> {
    var cs := IssueChanges(issue, cutoff);
    if cs == [] then [] else [IssueHeading(issue.key, issue.fields.summary)] + ChangeLines(cs, differ)
  }

  /** The sections of the issues, in fetch order. */
  function Sections(issues: seq<Issue>, cutoff: int, differ: Differ): seq<Line> {
    if issues == [] then []
    else Sections(issues[..|issues| - 1], cutoff, differ) + Section(issues[|issues| - 1], cutoff, differ)
  }

  predicate IsNew(issue: Issue, cutoff: int) { issue.fields.created >= cutoff }

  /** `neueTickets`: the issues created in the window, in fetch order. */
  function NewIssues(issues: seq<Issue>, cutoff: int): (r: seq<Issue>)
    ensures |r| <= |issues|
    ensures forall k :: 0 <= k < |r| ==> IsNew(r[k], cutoff)
  {
    if issues == [] then []
    else (if IsNew(issues[0], cutoff) then [issues[0]] else []) + NewIssues(issues[1..], cutoff)
  }

  function NewEntries(issues: seq<Issue>): (ls: seq<Line>)
    ensures |ls| == |issues|
    ensures forall k :: 0 <= k < |issues| ==> ls[k] == NewIssueEntry(issues[k].key, issues[k].fields.summary)
  {
    if issues == [] then []
    else NewEntries(issues[..|issues| - 1]) + [NewIssueEntry(issues[|issues| - 1].key, issues[|issues| - 1].fields.summary)]
  }

  /** The list of new issues, left out entirely when there are none. */
  function NewSection(issues: seq<Issue>): (r: seq<Line>)
    ensures r == [] <==> issues == []
    ensures issues != [] ==>
      |r| == |issues| + 2 && r[0] == NewIssuesHeading && r[|r| - 1] == NewIssuesEnd
    ensures issues != [] ==>
      forall k :: 0 <= k < |issues| ==> r[k + 1] == NewIssueEntry(issues[k].key, issues[k].fields.summary)
  {
    if issues == [] then [] else [NewIssuesHeading] + NewEntries(issues) + [NewIssuesEnd]
  }

  /** The whole report for the fetched issues. */
  function Document(issues: seq<Issue>, cutoff: int, days: int32, differ: Differ): (r: seq<Line>)
    ensures |r| >= 2 && r[0] == Preamble(days) && r[|r| - 1] == DocumentEnd
  {
    [Preamble(days)] + Sections(issues, cutoff, differ) + NewSection(NewIssues(issues, cutoff)) + [DocumentEnd]
  }

  lemma ChangeLinesStep(sb: seq<Line>, before: seq<Line>, after: seq<Line>, cs: seq<Change>, j: nat, differ: Differ)
    requires j < |cs| && before == sb + ChangeLines(cs[..j], differ)
    requires after == before + [ChangeHeading(cs[j].field, cs[j].when)] + [DiffBlock(Rendered(differ(cs[j].from, cs[j].to)))]
    ensures after == sb + ChangeLines(cs[..j + 1], differ)
  {
    var lines := [ChangeHeading(cs[j].field, cs[j].when), DiffBlock(Rendered(differ(cs[j].from, cs[j].to)))];
    Snoc(cs, j);
    assert ChangeLines(cs[..j + 1], differ) == ChangeLines(cs[..j], differ) + lines;
    Assoc(sb, ChangeLines(cs[..j], differ), lines);
  }

  /** The inner `foreach` over one issue's changes. */
  method AppendChanges(sb: seq<Line>, aenderungen: seq<Change>, differ: Differ) returns (out: seq<Line>)
    ensures out == sb + ChangeLines(aenderungen, differ)
  {
    out := sb;
    for j := 0 to |aenderungen|
      invariant out == sb + ChangeLines(aenderungen[..j], differ)
    {
      var a := aenderungen[j];
      ghost var before := out;
      out := out + [ChangeHeading(a.field, a.when)];
      var html := RenderDiffHtml(differ(a.from, a.to));
      out := out + [DiffBlock(html)];
      ChangeLinesStep(sb, before, out, aenderungen, j, differ);
    }
    assert aenderungen[..|aenderungen|] == aenderungen;
  }

  /** The `ForEach` over the new issues. */
  method AppendNewEntries(sb: seq<Line>, neueTickets: seq<Issue>) returns (out: seq<Line>)
    ensures out == sb + NewEntries(neueTickets)
  {
    out := sb;
    for k := 0 to |neueTickets|
      invariant out == sb + NewEntries(neueTickets[..k])
    {
      var nt := neueTickets[k];
      Snoc(neueTickets, k);
      Assoc(sb, NewEntries(neueTickets[..k]), [NewIssueEntry(nt.key, nt.fields.summary)]);
      out := out + [NewIssueEntry(nt.key, nt.fields.summary)];
    }
    assert neueTickets[..|neueTickets|] == neueTickets;
  }

  method BuildReport(alleTickets: seq<Issue>, cutoff: int, tage: int32, differ: Differ) returns (sb: seq<Line>)
    ensures sb == Document(alleTickets, cutoff, tage, differ)
  {
    sb := [Preamble(tage)];
    for t := 0 to |alleTickets|
      invariant sb == [Preamble(tage)] + Sections(alleTickets[..t], cutoff, differ)
    {
      var ticket := alleTickets[t];
      ghost var before := sb;
      var aenderungen := IssueChanges(ticket, cutoff);
      if aenderungen != [] {
        sb := sb + [IssueHeading(ticket.key, ticket.fields.summary)];
        sb := AppendChanges(sb, aenderungen, differ);
        Assoc(before, [IssueHeading(ticket.key, ticket.fields.summary)], ChangeLines(aenderungen, differ));
      }
      assert sb == before + Section(ticket, cutoff, differ);
      Snoc(alleTickets, t);
      assert Sections(alleTickets[..t + 1], cutoff, differ) ==
        Sections(alleTickets[..t], cutoff, differ) + Section(ticket, cutoff, differ);
      Assoc([Preamble(tage)], Sections(alleTickets[..t], cutoff, differ), Section(ticket, cutoff, differ));
    }
    assert alleTickets[..|alleTickets|] == alleTickets;
    ghost var sections := sb;
    var neueTickets := NewIssues(alleTickets, cutoff);
    if neueTickets != [] {
      sb := sb + [NewIssuesHeading];
      sb := AppendNewEntries(sb, neueTickets);
      sb := sb + [NewIssuesEnd];
      Assoc(sections, [NewIssuesHeading], NewEntries(neueTickets));
      Assoc(sections, [NewIssuesHeading] + NewEntries(neueTickets), [NewIssuesEnd]);
    }
    assert sb == sections + NewSection(neueTickets);
    sb := sb + [DocumentEnd];
  }

  /** An issue gets a section exactly when it has a change in the window: a
      heading, then one heading and one rendered diff per change, in order. */
  lemma SectionOfIssue(issue: Issue, cutoff: int, differ: Differ)
    ensures Section(issue, cutoff, differ) == [] <==> IssueChanges(issue, cutoff) == []
    ensures var cs, sec := IssueChanges(issue, cutoff), Section(issue, cutoff, differ);
      cs != [] ==>
        |sec| == 1 + 2 * |cs| && sec[0] == IssueHeading(issue.key, issue.fields.summary) &&
        forall k :: 0 <= k < |cs| ==>
          sec[1 + 2 * k] == ChangeHeading(cs[k].field, cs[k].when) &&
          sec[2 + 2 * k] == DiffBlock(Rendered(differ(cs[k].from, cs[k].to)))
  {
    var cs := IssueChanges(issue, cutoff);
    if cs != [] {
      var sec := Section(issue, cutoff, differ);
      var ls := ChangeLines(cs, differ);
      forall k | 0 <= k < |cs|
        ensures sec[1 + 2 * k] == ls[2 * k] && sec[2 + 2 * k] == ls[2 * k + 1]
      {
      }
    }
  }

  /** Sections follow the fetch order of the issues. */
  lemma {:induction false} SectionsAppend(a: seq<Issue>, b: seq<Issue>, cutoff: int, differ: Differ)
    ensures Sections(a + b, cutoff, differ) == Sections(a, cutoff, differ) + Sections(b, cutoff, differ)
    decreases |b|
  {
    if b == [] {
      assert a + b == a;
    } else {
      var last := b[|b| - 1];
      assert (a + b)[..|a + b| - 1] == a + b[..|b| - 1];
      SectionsAppend(a, b[..|b| - 1], cutoff, differ);
      Assoc(Sections(a, cutoff, differ), Sections(b[..|b| - 1], cutoff, differ), Section(last, cutoff, differ));
    }
  }

  /** The new issues are exactly the fetched issues created at or after the
      cutoff. */
  lemma {:induction false} NewIssuesExact(issues: seq<Issue>, cutoff: int, issue: Issue)
    ensures issue in NewIssues(issues, cutoff) <==> issue in issues && IsNew(issue, cutoff)
  {
    if issues != [] {
      NewIssuesExact(issues[1..], cutoff, issue);
      assert issue in issues <==> issue == issues[0] || issue in issues[1..];
    }
  }

  /** ... and they keep the fetch order. */
  lemma {:induction false} NewIssuesAppend(a: seq<Issue>, b: seq<Issue>, cutoff: int)
    ensures NewIssues(a + b, cutoff) == NewIssues(a, cutoff) + NewIssues(b, cutoff)
  {
    if a == [] {
      assert a + b == b;
    } else {
      assert (a + b)[0] == a[0] && (a + b)[1..] == a[1..] + b;
      NewIssuesAppend(a[1..], b, cutoff);
    }
  }

  /** The list of new issues appears exactly when some issue is new. */
  lemma NewSectionPresent(issues: seq<Issue>, cutoff: int)
    ensures NewSection(NewIssues(issues, cutoff)) != [] <==> exists i :: i in issues && IsNew(i, cutoff)
  {
    var nts := NewIssues(issues, cutoff);
    if nts != [] {
      NewIssuesExact(issues, cutoff, nts[0]);
    }
    if exists i :: i in issues && IsNew(i, cutoff) {
      var i :| i in issues && IsNew(i, cutoff);
      NewIssuesExact(issues, cutoff, i);
    }
  }

  lemma SectionsOne(issue: Issue, cutoff: int, differ: Differ)
    ensures Sections([issue], cutoff, differ) == Section(issue, cutoff, differ)
  {
    assert [issue][..0] == [];
  }

  lemma NewIssuesOne(issue: Issue, cutoff: int)
    ensures NewIssues([issue], cutoff) == if IsNew(issue, cutoff) then [issue] else []
  {
    assert [issue][1..] == [];
  }

  /** An issue with no change in the window that was created before the
      cutoff leaves no trace in the report. */
  lemma QuietOldIssueInvisible(a: seq<Issue>, issue: Issue, b: seq<Issue>, cutoff: int, days: int32, differ: Differ)
    requires IssueChanges(issue, cutoff) == [] && !IsNew(issue, cutoff)
    ensures Document(a + [issue] + b, cutoff, days, differ) == Document(a + b, cutoff, days, differ)
  {
    var ab, aib := a + b, a + [issue] + b;
    SectionsAppend(a + [issue], b, cutoff, differ);
    SectionsAppend(a, [issue], cutoff, differ);
    SectionsAppend(a, b, cutoff, differ);
    SectionsOne(issue, cutoff, differ);
    assert Sections(a + [issue], cutoff, differ) == Sections(a, cutoff, differ);
    assert Sections(aib, cutoff, differ) == Sections(ab, cutoff, differ);
    NewIssuesAppend(a + [issue], b, cutoff);
    NewIssuesAppend(a, [issue], cutoff);
    NewIssuesAppend(a, b, cutoff);
    NewIssuesOne(issue, cutoff);
    assert NewIssues(a + [issue], cutoff) == NewIssues(a, cutoff);
    assert NewIssues(aib, cutoff) == NewIssues(ab, cutoff);
  }
}
