/** The text a deployment note is made of, and what building and merging
    notes compute: one summary line per issue, a version line, a
    milestone-date line and a deploy date per repository, and the merge that
    concatenates fragments in the order of the repositories. */
module NoteText {
  import opened Text
  import opened Numbers

  /** A label of an issue; `text` is the label's own printed form (its
      `String()` rendering), taken as given. */
  datatype Label = Label(text: string)

  /** A calendar date as `time.Time` carries it. */
  datatype Date = Date(year: int, month: int, day: int)

  datatype Milestone = Milestone(title: string, dueOn: Date)

  /** The fields of `github.Issue` the note reads. */
  datatype Issue = Issue(number: int, title: string, htmlURL: string, labels: seq<Label>, milestone: Milestone)

  /** `Note`'s fields as a value. */
  datatype NoteValue = NoteValue(
    deployDate: string,
    title: string,
    milestoneDate: string,
    issueSummary: string,
    repoVersion: string,
    mentionedPersons: string,
    mentioned: set<string>)

  /** `&Note{}`. */
  const EmptyNote := NoteValue("", "", "", "", "", "", {})

  /** `%v` of a slice: the elements' own renderings between brackets,
      separated by single spaces. */
  function LabelsText(labels: seq<Label>): string
  {
    "[" + Join(seq(|labels|, i requires 0 <= i < |labels| => labels[i].text), ' ') + "]"
  }

  /** `time.Format` with the layout "2006-01-02" (`sep` is '-') or
      "2006.01.02" (`sep` is '.'). */
  function FormatDate(d: Date, sep: char): string
  {
    PadInt(d.year, 4) + [sep] + PadInt(d.month, 2) + [sep] + PadInt(d.day, 2)
  }

  /** `- labels [repo #N / title](url)` and a newline. */
  function SummaryLine(repo: string, issue: Issue): string
  {
    "- " + LabelsText(issue.labels) + " [" + repo + " #" + FormatInt(issue.number) + " / " +
    issue.title + "](" + issue.htmlURL + ")\n"
  }

  /** `- [repo:milestone title]()` and a newline. */
  function VersionLine(repo: string, issue: Issue): string
  {
    "- [" + repo + ":" + issue.milestone.title + "]()\n"
  }

  /** `- repo:YYYY-MM-DD 10:00` and a newline. */
  function MilestoneLine(repo: string, issue: Issue): string
  {
    "- " + repo + ":" + FormatDate(issue.milestone.dueOn, '-') + " 10:00\n"
  }

  /** `YYYY.MM.DD`. */
  function DeployDateText(issue: Issue): string
  {
    FormatDate(issue.milestone.dueOn, '.')
  }

  /** One pass of `GetNotes`' loop: the summary grows by the issue's line;
      the version line, the milestone line and the deploy date are
      overwritten with the issue's. */
  function AddIssue(n: NoteValue, repo: string, issue: Issue): NoteValue
  {
    n.(issueSummary := n.issueSummary + SummaryLine(repo, issue),
       repoVersion := VersionLine(repo, issue),
       milestoneDate := MilestoneLine(repo, issue),
       deployDate := DeployDateText(issue))
  }

  /** The note `GetNotes` builds for one repository: no issue gives the
      empty note; otherwise the summary holds every issue's line in list
      order, and the version line, the milestone line and the deploy date
      are the LAST issue's. */
  function BuildNote(repo: string, issues: seq<Issue>): NoteValue
  {
    if issues == [] then EmptyNote
    else
      var last := issues[|issues| - 1];
      EmptyNote.(issueSummary := Summaries(repo, issues),
                 repoVersion := VersionLine(repo, last),
                 milestoneDate := MilestoneLine(repo, last),
                 deployDate := DeployDateText(last))
  }

  /** The reference summary: each issue's line, in list order. */
  function Summaries(repo: string, issues: seq<Issue>): string
  {
    if issues == [] then "" else SummaryLine(repo, issues[0]) + Summaries(repo, issues[1..])
  }

  lemma {:induction false} SummariesAppend(repo: string, a: seq<Issue>, b: seq<Issue>)
    ensures Summaries(repo, a + b) == Summaries(repo, a) + Summaries(repo, b)
  {
    if a == [] {
      assert a + b == b;
    } else {
      assert (a + b)[0] == a[0] && (a + b)[1..] == a[1..] + b;
      SummariesAppend(repo, a[1..], b);
      ConcatAssociative(SummaryLine(repo, a[0]), Summaries(repo, a[1..]), Summaries(repo, b));
    }
  }

  /** One pass of `GetNotes`' loop extends the note of the issues before
      it to the note of the issues up to and including `issue`. */
  lemma BuildNoteStep(repo: string, issues: seq<Issue>, issue: Issue)
    ensures BuildNote(repo, issues + [issue]) == AddIssue(BuildNote(repo, issues), repo, issue)
  {
    SummariesAppend(repo, issues, [issue]);
    SummariesSingle(repo, issue);
    if issues == [] {
      assert issues + [issue] == [issue];
    }
  }

  /** A single issue's summary is its line. */
  lemma SummariesSingle(repo: string, issue: Issue)
    ensures Summaries(repo, [issue]) == SummaryLine(repo, issue)
  {
    assert [issue][1..] == [];
  }

  /** The summary holds one line per issue: issue `k`'s line sits between the
      lines of the issues before it and those after it. */
  lemma SummaryLineAt(repo: string, issues: seq<Issue>, k: nat)
    requires k < |issues|
    ensures BuildNote(repo, issues).issueSummary ==
      Summaries(repo, issues[..k]) + SummaryLine(repo, issues[k]) + Summaries(repo, issues[k + 1..])
  {
    var before, at, after := issues[..k], issues[k], issues[k + 1..];
    assert issues == before + ([at] + after);
    SummariesAppend(repo, before, [at] + after);
    SummariesAppend(repo, [at], after);
    SummariesSingle(repo, at);
    ConcatAssociative(Summaries(repo, before), SummaryLine(repo, at), Summaries(repo, after));
  }

  /** Proof helper: concatenation regrouped. */
  lemma ConcatAssociative(a: string, b: string, c: string)
    ensures a + (b + c) == a + b + c
  {
  }

  /** Last wins: two issue lists that end with the same issue give the same
      version line, milestone line and deploy date. */
  lemma LastIssueWins(repo: string, a: seq<Issue>, b: seq<Issue>)
    requires a != [] && b != [] && a[|a| - 1] == b[|b| - 1]
    ensures BuildNote(repo, a).repoVersion == BuildNote(repo, b).repoVersion
    ensures BuildNote(repo, a).milestoneDate == BuildNote(repo, b).milestoneDate
    ensures BuildNote(repo, a).deployDate == BuildNote(repo, b).deployDate
  {
  }

  /** Reading a formatted date back: for a four-digit year the text is
      `YYYY`, `sep`, `MM`, `sep`, `DD`, and each field reads back as the
      date's own number. */
  lemma FormatDateFields(d: Date, sep: char)
    requires 0 <= d.year <= 9999 && 1 <= d.month <= 12 && 1 <= d.day <= 31
    ensures var s := FormatDate(d, sep);
      |s| == 10 && s[4] == sep && s[7] == sep &&
      Atoi(s[..4]) == d.year && Atoi(s[5..7]) == d.month && Atoi(s[8..]) == d.day
  {
    var s := FormatDate(d, sep);
    var y, m, dd := PadInt(d.year, 4), PadInt(d.month, 2), PadInt(d.day, 2);
    DigitsShort(d.year, 4);
    DigitsShort(d.month, 2);
    DigitsShort(d.day, 2);
    PadIntShape(d.year, 4);
    PadIntShape(d.month, 2);
    PadIntShape(d.day, 2);
    assert s == y + [sep] + m + [sep] + dd;
    assert s[..4] == y && s[5..7] == m && s[8..] == dd;
    AtoiPadInt(d.year, 4);
    AtoiPadInt(d.month, 2);
    AtoiPadInt(d.day, 2);
  }

  /** A number below 10^w has at most w digits. */
  lemma {:induction false} DigitsShort(n: nat, w: nat)
    requires w >= 1 && n < Pow10(w)
    ensures |Digits(n)| <= w
  {
    if n >= 10 {
      DigitsShort(n / 10, w - 1);
    }
  }

  function Pow10(w: nat): nat
  {
    if w == 0 then 1 else 10 * Pow10(w - 1)
  }

  /** `Note.Merge`: the milestone lines, the summaries and the version lines
      of `m` are appended to `n`'s, and the mention sets are united; every
      other field of `n` stays. */
  function MergeNote(n: NoteValue, m: NoteValue): NoteValue
  {
    n.(milestoneDate := n.milestoneDate + m.milestoneDate,
       issueSummary := n.issueSummary + m.issueSummary,
       repoVersion := n.repoVersion + m.repoVersion,
       mentioned := n.mentioned + m.mentioned)
  }

  /** The fragments merged into `n` one after another, in order. */
  function MergeAll(n: NoteValue, frags: seq<NoteValue>): NoteValue
  {
    if frags == [] then n else MergeNote(MergeAll(n, frags[..|frags| - 1]), frags[|frags| - 1])
  }

  /** The reference concatenation of the fragments' milestone lines, first
      fragment first. */
  function AllMilestoneDates(frags: seq<NoteValue>): string
  {
    if frags == [] then "" else frags[0].milestoneDate + AllMilestoneDates(frags[1..])
  }

  function AllSummaries(frags: seq<NoteValue>): string
  {
    if frags == [] then "" else frags[0].issueSummary + AllSummaries(frags[1..])
  }

  function AllVersions(frags: seq<NoteValue>): string
  {
    if frags == [] then "" else frags[0].repoVersion + AllVersions(frags[1..])
  }

  function AllMentioned(frags: seq<NoteValue>): set<string>
  {
    if frags == [] then {} else frags[0].mentioned + AllMentioned(frags[1..])
  }

  lemma {:induction false} AllAppend(a: seq<NoteValue>, b: seq<NoteValue>)
    ensures AllMilestoneDates(a + b) == AllMilestoneDates(a) + AllMilestoneDates(b)
    ensures AllSummaries(a + b) == AllSummaries(a) + AllSummaries(b)
    ensures AllVersions(a + b) == AllVersions(a) + AllVersions(b)
    ensures AllMentioned(a + b) == AllMentioned(a) + AllMentioned(b)
  {
    if a == [] {
      assert a + b == b;
    } else {
      assert (a + b)[0] == a[0] && (a + b)[1..] == a[1..] + b;
      AllAppend(a[1..], b);
      ConcatAssociative(a[0].milestoneDate, AllMilestoneDates(a[1..]), AllMilestoneDates(b));
      ConcatAssociative(a[0].issueSummary, AllSummaries(a[1..]), AllSummaries(b));
      ConcatAssociative(a[0].repoVersion, AllVersions(a[1..]), AllVersions(b));
    }
  }

  /** The concatenations of a single fragment are its own fields. */
  lemma AllSingle(frag: NoteValue)
    ensures AllMilestoneDates([frag]) == frag.milestoneDate
    ensures AllSummaries([frag]) == frag.issueSummary
    ensures AllVersions([frag]) == frag.repoVersion
    ensures AllMentioned([frag]) == frag.mentioned
  {
    assert [frag][1..] == [];
  }

  /** Merging fragments A, B, C ... in order gives, for each appended field,
      the composite's old text followed by A's, B's, C's ... in that order,
      and the union of all mention sets; the deploy date, the title and the
      rendered mentions are those of the composite. */
  lemma {:induction false} MergeAllConcatenates(n: NoteValue, frags: seq<NoteValue>)
    ensures MergeAll(n, frags).milestoneDate == n.milestoneDate + AllMilestoneDates(frags)
    ensures MergeAll(n, frags).issueSummary == n.issueSummary + AllSummaries(frags)
    ensures MergeAll(n, frags).repoVersion == n.repoVersion + AllVersions(frags)
    ensures MergeAll(n, frags).mentioned == n.mentioned + AllMentioned(frags)
    ensures MergeAll(n, frags).deployDate == n.deployDate
    ensures MergeAll(n, frags).title == n.title
    ensures MergeAll(n, frags).mentionedPersons == n.mentionedPersons
  {
    if frags != [] {
      var k := |frags| - 1;
      var init := frags[..k];
      MergeAllConcatenates(n, init);
      AllAppend(init, [frags[k]]);
      AllSingle(frags[k]);
      assert init + [frags[k]] == frags;
      ConcatAssociative(n.milestoneDate, AllMilestoneDates(init), frags[k].milestoneDate);
      ConcatAssociative(n.issueSummary, AllSummaries(init), frags[k].issueSummary);
      ConcatAssociative(n.repoVersion, AllVersions(init), frags[k].repoVersion);
    }
  }

  /** Merging is associative: merging B then C into A is merging into A the
      result of merging C into B. */
  lemma MergeAssociative(a: NoteValue, b: NoteValue, c: NoteValue)
    ensures MergeNote(MergeNote(a, b), c) == MergeNote(a, MergeNote(b, c))
  {
  }

  /** A field of at most two digits, padded to width 2. */
  lemma PadTwo(n: nat)
    requires n < 100
    ensures PadInt(n, 2) == [DigitChar(n / 10), DigitChar(n % 10)]
  {
    if n < 10 {
      assert Zeros(1) == "0";
    } else {
      assert Digits(n / 10) == [DigitChar(n / 10)];
    }
  }

  /** A four-digit field is its four digits. */
  lemma PadFour(n: nat)
    requires 1000 <= n < 10000
    ensures PadInt(n, 4) == [DigitChar(n / 1000), DigitChar(n / 100 % 10), DigitChar(n / 10 % 10), DigitChar(n % 10)]
  {
    assert Digits(n / 1000) == [DigitChar(n / 1000)];
    assert Digits(n / 100) == [DigitChar(n / 1000), DigitChar(n / 100 % 10)];
    assert Digits(n / 10) == [DigitChar(n / 1000), DigitChar(n / 100 % 10), DigitChar(n / 10 % 10)];
  }

  /** The due dates of the two-repository example, in the `2006-01-02` layout. */
  lemma ExampleDates()
    ensures FormatDate(Date(2024, 5, 1), '-') == "2024-05-01"
    ensures FormatDate(Date(2024, 6, 15), '-') == "2024-06-15"
  {
    ExampleFields();
    assert "2024" + "-" + "05" + "-" + "01" == "2024-05-01";
    assert "2024" + "-" + "06" + "-" + "15" == "2024-06-15";
  }

  /** The zero-padded fields of the example dates. */
  lemma ExampleFields()
    ensures PadInt(2024, 4) == "2024"
    ensures PadInt(5, 2) == "05" && PadInt(1, 2) == "01"
    ensures PadInt(6, 2) == "06" && PadInt(15, 2) == "15"
  {
    ExampleYear();
    ExamplePad(5, '5');
    ExamplePad(1, '1');
    ExamplePad(6, '6');
    PadTwo(15);
    assert DigitChar(1) == '1' && DigitChar(5) == '5';
  }

  /** The year field of the example dates. */
  lemma ExampleYear()
    ensures PadInt(2024, 4) == "2024"
  {
    PadFour(2024);
    assert DigitChar(2) == '2' && DigitChar(0) == '0' && DigitChar(4) == '4';
  }

  /** A one-digit field padded to width 2. */
  lemma ExamplePad(n: nat, c: char)
    requires n < 10 && c == DigitChar(n)
    ensures PadInt(n, 2) == ['0', c]
  {
    PadTwo(n);
    assert DigitChar(0) == '0';
  }
  /** The milestone lines of the two-repository example. */
  lemma ExampleLines(a: Issue, b: Issue)
    requires a.milestone.dueOn == Date(2024, 5, 1) && b.milestone.dueOn == Date(2024, 6, 15)
    ensures MilestoneLine("repo-a", a) == "- repo-a:2024-05-01 10:00\n"
    ensures MilestoneLine("repo-b", b) == "- repo-b:2024-06-15 10:00\n"
  {
    ExampleDates();
    ExampleLineA();
    ExampleLineB();
  }

  /** Proof helper: the example's first milestone line as one literal. */
  lemma ExampleLineA()
    ensures "- " + "repo-a" + ":" + "2024-05-01" + " 10:00\n" == "- repo-a:2024-05-01 10:00\n"
  {
  }

  /** Proof helper: the example's second milestone line as one literal. */
  lemma ExampleLineB()
    ensures "- " + "repo-b" + ":" + "2024-06-15" + " 10:00\n" == "- repo-b:2024-06-15 10:00\n"
  {
  }

  /** Two repositories, "repo-a" with one issue due 2024-05-01 and "repo-b"
      with one issue due 2024-06-15, merged in that order: the milestone
      lines appear in the order of the repositories. */
  lemma TwoRepositories(a: Issue, b: Issue)
    requires a.milestone.dueOn == Date(2024, 5, 1) && b.milestone.dueOn == Date(2024, 6, 15)
    ensures MergeAll(EmptyNote, [BuildNote("repo-a", [a]), BuildNote("repo-b", [b])]).milestoneDate ==
      "- repo-a:2024-05-01 10:00\n" + "- repo-b:2024-06-15 10:00\n"
  {
    var x, y := BuildNote("repo-a", [a]), BuildNote("repo-b", [b]);
    ExampleLines(a, b);
    MergeAllConcatenates(EmptyNote, [x, y]);
    assert [x, y][1..] == [y] && [y][1..] == [];
    assert AllMilestoneDates([y]) == y.milestoneDate + AllMilestoneDates([]);
    assert AllMilestoneDates([x, y]) == x.milestoneDate + AllMilestoneDates([y]);
  }
}
