/** The deployment note as the mutable record the program fills in: the
    notes built per repository from their issues, and the composite note
    they are merged into. */
module Notes {
  import opened Wrappers
  import opened Text
  import opened NoteText

  class Note {
    var deployDate: string
    var title: string
    var milestoneDate: string
    var issueSummary: string
    var repoVersion: string
    var mentionedPersons: string
    var mentioned: set<string>

    /** The note's fields as a value. */
    function Value(): NoteValue
      reads this
    {
      NoteValue(deployDate, title, milestoneDate, issueSummary, repoVersion, mentionedPersons, mentioned)
    }

    /** `&Note{}`: every field empty. */
    constructor ()
      ensures Value() == EmptyNote
    {
      deployDate, title, milestoneDate, issueSummary, repoVersion, mentionedPersons := "", "", "", "", "", "";
      mentioned := {};
    }

    /** Appends `m`'s milestone lines, summaries and version lines to this
        note's and adds `m`'s mentions. Each field of `m` is read before the
        same field of this note is written. */
    method Merge(m: Note)
      modifies this
      ensures Value() == MergeNote(old(Value()), old(m.Value()))
      ensures m != this ==> m.Value() == old(m.Value())
    {
      milestoneDate := milestoneDate + m.milestoneDate;
      issueSummary := issueSummary + m.issueSummary;
      repoVersion := repoVersion + m.repoVersion;
      mentioned := mentioned + m.mentioned;
    }

    /** The body of `GetNotes`' loop for one issue: its summary line is
        appended, and the version line, the milestone line and the deploy
        date are overwritten with the issue's. */
    method Add(repo: string, issue: Issue)
      modifies this
      ensures Value() == AddIssue(old(Value()), repo, issue)
    {
      issueSummary := issueSummary + SummaryLine(repo, issue);
      repoVersion := VersionLine(repo, issue);
      milestoneDate := MilestoneLine(repo, issue);
      deployDate := DeployDateText(issue);
    }
  }

  /** `GetNotes` for one repository, given what listing the repository's
      issues for the milestone returned: on an error, the empty note and that
      error; otherwise the note built from the issues in order. */
  method GetNotes(repo: string, listed: Result<seq<Issue>>) returns (note: Note, err: Option<Error>)
    ensures fresh(note)
    ensures listed.Failure? ==> note.Value() == EmptyNote && err == Some(listed.error)
    ensures listed.Success? ==> err == None && note.Value() == BuildNote(repo, listed.value)
  {
    note := new Note();
    if listed.Failure? {
      return note, Some(listed.error);
    }
    var issues := listed.value;
    for i := 0 to |issues|
      invariant note.Value() == BuildNote(repo, issues[..i])
    {
      var issue := issues[i];
      assert issues[..i + 1] == issues[..i] + [issue];
      BuildNoteStep(repo, issues[..i], issue);
      note.Add(repo, issue);
    }
    assert issues[..|issues|] == issues;
    err := None;
  }

  /** The issues a listing yields: none when it failed. */
  function Issues(listing: Result<seq<Issue>>): seq<Issue>
  {
    match listing
    case Success(issues) => issues
    case Failure(_) => []
  }

  /** The notes built for the first `k` repositories, repository `i` from
      listing `i`, in order. */
  function Fragments(names: seq<string>, listed: seq<Result<seq<Issue>>>, k: nat): (frags: seq<NoteValue>)
    requires |names| == |listed| && k <= |names|
    ensures |frags| == k
  {
    if k == 0 then []
    else Fragments(names, listed, k - 1) + [BuildNote(names[k - 1], Issues(listed[k - 1]))]
  }

  /** Fragment `i` is the note built for repository `i` from listing `i`. */
  lemma {:induction false} FragmentsAt(names: seq<string>, listed: seq<Result<seq<Issue>>>, k: nat, i: nat)
    requires |names| == |listed| && i < k <= |names|
    ensures Fragments(names, listed, k)[i] == BuildNote(names[i], Issues(listed[i]))
  {
    var prefix := Fragments(names, listed, k - 1);
    assert Fragments(names, listed, k) == prefix + [BuildNote(names[k - 1], Issues(listed[k - 1]))];
    if i < k - 1 {
      assert Fragments(names, listed, k)[i] == prefix[i];
      FragmentsAt(names, listed, k - 1, i);
    }
  }

  /** No repository note mentions anyone. */
  lemma {:induction false} FragmentsUnmentioned(names: seq<string>, listed: seq<Result<seq<Issue>>>, k: nat)
    requires |names| == |listed| && k <= |names|
    ensures AllMentioned(Fragments(names, listed, k)) == {}
  {
    if k != 0 {
      var frag := BuildNote(names[k - 1], Issues(listed[k - 1]));
      FragmentsUnmentioned(names, listed, k - 1);
      AllAppend(Fragments(names, listed, k - 1), [frag]);
      assert AllMentioned([frag]) == frag.mentioned + AllMentioned([]);
    }
  }

  /** The composite note `main` builds from the first `k` repositories,
      before it fills in `MentionedPersons` from the mention set
      (main.go:338) and passes it to the template:
      the given title; the milestone lines, summaries and version lines of
      the repositories one after the other in the order of the list; no
      mentions; and an empty deploy date, since merging never carries a
      repository's deploy date over. */
  lemma ComposedNote(title: string, names: seq<string>, listed: seq<Result<seq<Issue>>>, k: nat)
    requires |names| == |listed| && k <= |names|
    ensures var frags := Fragments(names, listed, k);
      var c := MergeAll(EmptyNote.(title := title), frags);
      c.title == title && c.deployDate == "" && c.mentionedPersons == "" && c.mentioned == {} &&
      c.milestoneDate == AllMilestoneDates(frags) &&
      c.issueSummary == AllSummaries(frags) &&
      c.repoVersion == AllVersions(frags)
  {
    MergeAllConcatenates(EmptyNote.(title := title), Fragments(names, listed, k));
    FragmentsUnmentioned(names, listed, k);
  }

  /** The index of the first failed listing at or after `i`, or `|listed|`
      when none fails. */
  function FirstFailureFrom(listed: seq<Result<seq<Issue>>>, i: nat): (f: nat)
    requires i <= |listed|
    ensures i <= f <= |listed| && (f < |listed| ==> listed[f].Failure?)
    decreases |listed| - i
  {
    if i == |listed| || listed[i].Failure? then i else FirstFailureFrom(listed, i + 1)
  }

  /** The index of the first failed listing, or `|listed|` when all succeed. */
  function FirstFailure(listed: seq<Result<seq<Issue>>>): (f: nat)
    ensures f <= |listed| && (f < |listed| ==> listed[f].Failure?)
  {
    FirstFailureFrom(listed, 0)
  }

  lemma {:induction false} FirstFailureFromIs(listed: seq<Result<seq<Issue>>>, i: nat)
    requires i <= |listed|
    ensures forall j :: i <= j < FirstFailureFrom(listed, i) ==> listed[j].Success?
    decreases |listed| - i
  {
    if i < |listed| && listed[i].Success? {
      FirstFailureFromIs(listed, i + 1);
    }
  }

  /** `FirstFailure` is what its name says: every listing before it
      succeeded, and it is either past the end or a failed listing. */
  lemma FirstFailureIs(listed: seq<Result<seq<Issue>>>)
    ensures forall j :: 0 <= j < FirstFailure(listed) ==> listed[j].Success?
    ensures FirstFailure(listed) == |listed| <==> forall j :: 0 <= j < |listed| ==> listed[j].Success?
  {
    FirstFailureFromIs(listed, 0);
  }

  lemma MergeAllStep(n: NoteValue, frags: seq<NoteValue>, frag: NoteValue)
    ensures MergeAll(n, frags + [frag]) == MergeNote(MergeAll(n, frags), frag)
  {
    assert (frags + [frag])[..|frags|] == frags;
  }

  /** The loop of `main`: the composite note gets `title`, then, for each
      repository of the colon-separated list in order, the note of that
      repository is merged in. The first failed listing stops the loop with
      its error; the note then holds the repositories before it. */
  method Compose(title: string, repos: string, listed: seq<Result<seq<Issue>>>) returns (note: Note, err: Option<Error>)
    requires |listed| == |Split(repos, ':')|
    ensures fresh(note)
    ensures err.None? <==> FirstFailure(listed) == |listed|
    ensures err.Some? ==> FirstFailure(listed) < |listed| && err == Some(listed[FirstFailure(listed)].error)
    ensures FirstFailure(listed) <= |listed| && note.Value() ==
      MergeAll(EmptyNote.(title := title), Fragments(Split(repos, ':'), listed, FirstFailure(listed)))
  {
    var names := Split(repos, ':');
    note := new Note();
    note.title := title;
    assert note.Value() == EmptyNote.(title := title);
    err := MergeRepos(note, names, listed);
  }

  /** Merges into `note`, repository by repository, the note built from
      that repository's listing, stopping at the first failed listing. */
  method MergeRepos(note: Note, names: seq<string>, listed: seq<Result<seq<Issue>>>) returns (err: Option<Error>)
    requires |names| == |listed|
    modifies note
    ensures err.None? <==> FirstFailure(listed) == |listed|
    ensures err.Some? ==> FirstFailure(listed) < |listed| && err == Some(listed[FirstFailure(listed)].error)
    ensures FirstFailure(listed) <= |listed| && note.Value() ==
      MergeAll(old(note.Value()), Fragments(names, listed, FirstFailure(listed)))
  {
    ghost var start := note.Value();
    var i := 0;
    while i < |names|
      invariant i <= |names|
      invariant FirstFailureFrom(listed, i) == FirstFailure(listed)
      invariant note.Value() == MergeAll(start, Fragments(names, listed, i))
    {
      var e := MergeRepo(note, names[i], listed[i]);
      if e.Some? {
        return e;
      }
      MergeAllStep(start, Fragments(names, listed, i), BuildNote(names[i], Issues(listed[i])));
      i := i + 1;
    }
    err := None;
  }

  /** One pass of `main`'s loop: the note of repository `repo` is built from
      its listing and merged into `note`; a failed listing merges nothing
      and gives its error. */
  method MergeRepo(note: Note, repo: string, listing: Result<seq<Issue>>) returns (err: Option<Error>)
    modifies note
    ensures listing.Failure? ==> err == Some(listing.error) && note.Value() == old(note.Value())
    ensures listing.Success? ==> err.None? && note.Value() == MergeNote(old(note.Value()), BuildNote(repo, listing.value))
  {
    var n, e := GetNotes(repo, listing);
    if e.Some? {
      return e;
    }
    note.Merge(n);
    err := None;
  }
}
