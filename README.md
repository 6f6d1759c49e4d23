# deploy-note, modelled in Dafny

deploy-note builds a deployment announcement from GitHub milestones. For each
repository of a colon-separated list, it lists the issues of one milestone. It
turns every issue into a summary line, and it records the repository's version
line, its milestone date and its deploy date. The per-repository notes are then
merged into one composite note. Around the issue listing sits a small GitHub
client. It wraps each HTTP response and reads two things from the headers: the
pagination links from the `Link` header, and the request quota from the
`X-RateLimit-*` headers.

This project models that core in `main.go`:

- The `Response` wrapper is a class (`Responses.Response`). Its constructor
  is `newResponse`. `populatePageValues` and `populateRate` are its methods,
  and they update the page fields and the rate fields in place. Each method
  is proved against a specification function on values: `Pagination.ParsePages`
  and `RateLimit.ParseRate`.
- `ParsePages` is a fold over the comma-separated links. The lemmas about it
  state the following:
  - a link that the parser skips changes nothing;
  - a field takes `Atoi` of the page of the last link that carries its
    relation;
  - a field that no link carries keeps its value.
- The `Note` record is a class (`Notes.Note`) with an in-place `Merge`.
  `GetNotes` is a loop proved against `NoteText.BuildNote`. That function
  says directly what the note holds: every issue's summary line in order,
  and the last issue's version line, milestone line and deploy date.
  `NoteText.BuildNoteStep` shows that one pass of the loop keeps the two in
  step. The loop of `main` that merges the repository notes is
  `Notes.Compose`, proved against `NoteText.MergeAll`. Where `main` exits on
  the first failed listing, `Compose` returns that listing's error.
- The lemmas in `NoteText` state the following:
  - the summary holds one line per issue, in order;
  - the version line, the milestone line and the deploy date come from the
    last issue;
  - merging fragments in order concatenates their fields in that order;
  - a formatted date reads back as the date's own numbers.
- `strconv.Atoi` and `strconv.ParseInt(s, 10, 64)` are modelled exactly, for
  a 64-bit `int`: the optional sign, the syntax error that gives 0, and the
  range error that clamps to the 64-bit bounds (`Numbers`). They are read back
  against `%d` and against the zero-padded fields of `time.Format`.
- `strings.Split`, `TrimSpace`, `HasPrefix`, `HasSuffix` and `Cut` are in
  `Text`. The query lookup `url.Parse(u).Query().Get("page")` is in
  `Pagination.QueryValue`.

Three notes on the source:

- Line 281 of `main.go` has an unbalanced `)`, so as written the file does not
  compile. The model uses the evident meaning: the deploy date is the
  milestone's due date in the `2006.01.02` layout.
- `Merge` never copies `DeployDate`. So the composite note that `main` passes to
  the template has an empty deploy date, whatever the repositories' notes hold. The model
  keeps this behaviour, and `Notes.ComposedNote` states it.
- The template (main.go:29-52) writes `{{ Title }}` (line 30) without the dot, so
  `text/template` reads `Title` as a function name. No such function is
  defined, so `Parse` fails and `template.Must` at line 340 panics before
  anything is rendered. The template is not part of this model.

The HTTP header keys are the canonical forms that `Header.Get` looks up, such
as "X-Ratelimit-Limit" for the program's "X-RateLimit-Limit".

## Model

| member | source | states |
|---|---|---|
| Text.Split | main.go:134-135 | `strings.Split` with a one-character separator: the pieces between the separators, in order, at least one (the lemmas below state its meaning) |
| Text.IsSpace | main.go:135 | `unicode.IsSpace`: the Latin-1 white space characters and Unicode's White_Space characters above Latin-1, the set `TrimSpace` trims at main.go:135 and 158 (`TrimSpaceTrims` states the trimming) |
| Text.TrimSpace | main.go:135 | `strings.TrimSpace`: white space removed at both ends (`TrimSpaceTrims` states what that means) |
| Text.JoinSplit | main.go:134-135 | splitting a header on a separator loses nothing: joining the pieces back gives the original text |
| Text.SplitJoin | main.go:134-135 | pieces that hold no separator come back unchanged from splitting their join |
| Text.SplitPieces | main.go:134-135 | no piece of a split holds the separator |
| Text.CutParts | main.go:152 | `Cut` finds a separator exactly when the text holds one; the text is then the part before it, the separator and the part after it, with no separator in the part before; otherwise the whole text comes first and the rest is empty |
| Text.TrimSpaceTrims | main.go:135 | the trimmed text is the slice of the input between a run of white space at the front and a run at the back, and has no white space at either end; so it is no longer than the input, and it is the input itself when that has no white space at either end |
| Numbers.ScanDigits | main.go:183 | the digit loop of `ParseUint`: a syntax error at the first non-digit, a range error as soon as the value passes 2^64 - 1, whichever comes first (stated by the lemmas below) |
| Numbers.ParseUint | main.go:183 | `strconv.ParseUint(s, 10, 64)`: the empty string is a syntax error, otherwise the digit loop (`ParseUintBounds` and `ParseUintDigits` state it) |
| Numbers.ScanDigitsBounds | main.go:183 | a successful parse read only digits, and its value lies between the accumulated value and 2^64 - 1 |
| Numbers.ParseUintBounds | main.go:183 | a successful parse is of a non-empty all-digit string, with a value of at most 2^64 - 1 |
| Numbers.ScanDigitsOverflows | main.go:183 | the digit loop stops with a range error on a run of digits whose value passes 2^64 - 1 |
| Numbers.ParseUintDigits | main.go:183 | a non-empty run of digits parses to its value when that fits in 64 bits, and is a range error otherwise |
| Numbers.Atoi | main.go:159-166 | the value (here of a page; the rate headers at lines 177, 180 and 183 are read the same way) is always a 64-bit integer; the empty string and a string that starts with neither a sign nor a digit read as 0 |
| Numbers.AtoiClampsHigh | main.go:159-166 | a run of digits above 2^63 - 1, with a plus sign or none, reads as the largest 64-bit integer, both below and above 2^64 - 1 |
| Numbers.AtoiClampsLow | main.go:159-166 | a minus sign before a run of digits above 2^63 reads as the smallest 64-bit integer |
| Numbers.AtoiInRange | main.go:159-166 | a run of digits within the 64-bit range, with a sign or none, reads as its value, negated after a minus sign |
| Numbers.AtoiOverflowsFirst | main.go:159-166 | digits that pass 2^64 - 1 before any non-digit clamp to the bound of the sign, whatever follows them |
| Numbers.ScanDigitsOverflowsEarly | main.go:183 | the digit loop gives a range error once a prefix of digits passes 2^64 - 1, whatever follows |
| Numbers.AtoiNonNumeric | main.go:159-166 | a page or header with a non-digit after the optional sign, before any overflow, reads as 0 |
| Numbers.FormatInt | main.go:267 | `%d`: a minus sign for a negative number, then its decimal digits (`AtoiFormatInt` reads it back) |
| Numbers.AtoiFormatInt | main.go:267 | reading back the `%d` form of any 64-bit integer gives that integer |
| Numbers.AtoiPadInt | main.go:280-281 | reading back a zero-padded date field gives the field's number, whatever the width |
| Numbers.PadInt | main.go:280-281 | a numeric field of `time.Format`: the number's digits padded with zeros on the left to the layout's width (`PadIntShape` and `AtoiPadInt` state its shape and value) |
| Numbers.PadIntShape | main.go:280-281 | a zero-padded date field of a non-negative number is all digits, and exactly as wide as the layout asks unless the number needs more digits |
| Http.Get | main.go:176-182 | the first value under the key, or "" when the key is absent or has no value |
| Pagination.Pages.Set | main.go:159-166 | assigning one page field sets that field and leaves the other three unchanged |
| Pagination.RelOf | main.go:158-166 | the `switch` on the trimmed segment: the relation whose `rel="..."` text it equals, or none (`RelOfNames` states both directions) |
| Pagination.RelOfNames | main.go:157-166 | a segment selects a relation exactly when, trimmed, it is that relation's `rel="..."` text |
| Pagination.FirstValue | main.go:152 | a non-empty value of the query lookup comes from a `key=value` pair that is in the query |
| Pagination.FirstValueFirst | main.go:152 | the first pair that holds the key decides the lookup: its value is the text after its first `=`, whatever later pairs hold |
| Pagination.FirstValueFound | main.go:152 | a pair `key=v` gives `v` when no earlier pair holds the key |
| Pagination.FirstValueAbsent | main.go:152 | a key that no pair holds gives "" |
| Pagination.QueryValue | main.go:148-152 | `url.Parse(u).Query().Get("page")`: the first `page` value among the `&`-separated pairs after the first `?`, with any `#` fragment dropped |
| Pagination.Bracketed | main.go:143-148 | a url accepted as `<`…`>` has at least two characters, `<` first and `>` last |
| Pagination.LinkPage | main.go:135-155 | a page the parser uses is never empty |
| Pagination.SegmentsPage | main.go:138-155 | the three skip tests on the segments of a trimmed link, and the `page` parameter of the bracketed url when none of them skips it |
| Pagination.ParseLink | main.go:135-157 | a link the parser reads has a non-empty page and at least one attribute segment (`ParseLinkCases` states which links are skipped) |
| Pagination.ParseLinkCases | main.go:135-157 | a link is skipped exactly when it has fewer than two segments, its url is not in angle brackets, or its `page` parameter is missing or empty; a link that is not skipped yields that parameter as its page and the segments after the url as its attributes |
| Pagination.ApplyRels | main.go:157-169 | the inner loop over the attribute segments, each setting the field its relation names (`ApplyRelsNames` states the result) |
| Pagination.ApplyRelsNames | main.go:157-167 | after the switch loop, a field holds `Atoi(page)` if some segment names its relation, and its old value otherwise |
| Pagination.UpdateFields | main.go:157-167 | a parsed link sets every field its segments name to `Atoi(page)` and leaves all other fields unchanged; a skipped link changes nothing |
| Pagination.ApplyLinkFields | main.go:135-168 | one link: a skipped link changes no field; otherwise a field changes to `Atoi(page)` exactly when the link carries its relation |
| Pagination.ParsePages | main.go:133 | with no `Link` header, or one with no value, no page field changes |
| Pagination.ApplyLinks | main.go:134-170 | the outer loop over the links, applied in order (`ApplyLinksLastWins` and `ApplyLinksUncarried` state the result) |
| Pagination.ApplyLinksUncarried | main.go:133-170 | a field that no link carries keeps its value (0 on a fresh response) |
| Pagination.ApplyLinksLastWins | main.go:133-170 | a field holds `Atoi` of the page of the last link that carries its relation; an earlier link with the same relation is overwritten |
| RateLimit.ParseRate | main.go:175-187 | each rate header is read on its own: an absent or empty header leaves its field unchanged, and a present header sets the field to its `Atoi` value; the reset changes only to a non-zero value and is always set when the header reads as non-zero |
| RateLimit.NoRateHeaders | main.go:175-187 | without rate headers a fresh response has a zero quota and no reset |
| RateLimit.ZeroResetIgnored | main.go:182-184 | a reset header of "0" leaves the reset unchanged |
| Responses.Response.constructor | main.go:123-128 | `newResponse` keeps the header and sets the page fields and the rate that the two populate steps compute from zero values |
| Responses.Response.PopulatePageValues | main.go:132-172 | the page fields become the fold of the comma-separated links of the first `Link` value over the old fields; no other field may change |
| Responses.Response.PopulateLink | main.go:135-168 | one pass of the outer loop: the page fields become what `ApplyLink` computes for that link, so a skipped link leaves them as they were |
| Responses.Response.SetRelations | main.go:157-167 | the inner loop over the segments after the url sets each named relation's field, as `ApplyRels` says |
| Responses.Response.SetSegment | main.go:158-166 | the `switch` on one trimmed segment sets the field of the relation the segment names to `Atoi(page)`, as `SetNamed` says, and leaves the others |
| Responses.Response.PopulateRate | main.go:175-187 | the rate fields become `ParseRate` of the old rate and the header; no other field may change |
| NoteText.BuildNoteStep | main.go:264-282 | one pass of the loop turns the note of the issues before it into the note of the issues up to and including the current one: its line is appended to the summary, and the version, milestone and deploy lines become the current issue's |
| NoteText.BuildNote | main.go:264-282 | the note of one repository: empty for no issues; otherwise every issue's summary line in order, and the last issue's version line, milestone line and deploy date |
| NoteText.AddIssue | main.go:264-282 | one issue added to a note: its summary line appended; the version line, the milestone line and the deploy date replaced by its own |
| NoteText.SummaryLine | main.go:267 | `- <labels> [<repo> #<number> / <title>](<url>)` and a newline |
| NoteText.LabelsText | main.go:267 | `%v` of the labels: their texts between brackets, separated by single spaces |
| NoteText.VersionLine | main.go:270 | `- [<repo>:<milestone title>]()` and a newline |
| NoteText.MilestoneLine | main.go:280 | `- <repo>:<due date as YYYY-MM-DD> 10:00` and a newline |
| NoteText.DeployDateText | main.go:281 | the due date as `YYYY.MM.DD` |
| NoteText.FormatDate | main.go:280-281 | the layouts `2006-01-02` and `2006.01.02`: a four-digit year, a two-digit month and a two-digit day between separators (`FormatDateFields` reads them back) |
| NoteText.MergeNote | main.go:65-70 | `Merge` on values: three fields appended, the mention sets united, every other field kept |
| NoteText.Summaries | main.go:266-268 | each issue's summary line in list order (`SummaryLineAt` locates each line) |
| NoteText.SummaryLineAt | main.go:266-268 | issue k's summary line sits between the lines of the issues before it and those after it |
| NoteText.LastIssueWins | main.go:270-281 | two issue lists that end with the same issue give the same version line, milestone line and deploy date |
| NoteText.FormatDateFields | main.go:280-281 | a formatted due date is 10 characters long, has the separator at positions 4 and 7, and its three fields read back as the year, month and day |
| NoteText.MergeAll | main.go:331-337 | the repository notes merged in one after another, in list order (`MergeAllConcatenates` states the result) |
| NoteText.MergeAllConcatenates | main.go:331-337 | merging fragments A, B, C in order appends A's, then B's, then C's milestone lines, summaries and version lines, unites the mention sets, and keeps the deploy date, the title and the rendered mentions |
| NoteText.MergeAssociative | main.go:65-70 | merging B then C into A is the same as merging into A the merge of C into B |
| NoteText.ExampleDates | main.go:280 | the dates 2024-05-01 and 2024-06-15 are formatted in the `2006-01-02` layout as expected |
| NoteText.ExampleLines | main.go:280 | the milestone lines of issues due 2024-05-01 and 2024-06-15 |
| NoteText.TwoRepositories | main.go:331-337 | with repo-a due 2024-05-01 and repo-b due 2024-06-15, the composite milestone text is repo-a's line followed by repo-b's |
| Notes.Note.constructor | main.go:258 | `&Note{}` has every field empty |
| Notes.Note.Merge | main.go:65-70 | the milestone lines, summaries and version lines of `m` are appended and the mention sets are united; the deploy date, the title and the rendered mentions are unchanged; a different `m` is unchanged |
| Notes.Note.Add | main.go:264-282 | the loop body for one issue appends its summary line and overwrites the version line, the milestone line and the deploy date with the issue's |
| Notes.GetNotes | main.go:255-287 | a failed listing gives the empty note and the listing's error; otherwise no error and the note whose summary holds every issue's line in order and whose version, milestone and deploy lines are the last issue's |
| Notes.FragmentsAt | main.go:331-335 | note i of the merged sequence is the note built for repository i from listing i |
| Notes.FirstFailureIs | main.go:331-335 | every listing before the first failure succeeded, and the first failure is past the end exactly when every listing succeeded |
| Notes.FragmentsUnmentioned | main.go:264-282 | no repository note mentions anyone |
| Notes.ComposedNote | main.go:329-337 | the composite note of the repositories merged so far has the given title, their lines one after another in list order, no mentions, and an empty deploy date |
| Notes.MergeRepo | main.go:332-336 | one pass of the loop: a failed listing gives its error and leaves the note unchanged; otherwise the repository's note, built from its issues, is merged in |
| Notes.MergeRepos | main.go:331-337 | the loop fails exactly when some listing fails, returning the first failed listing's error; the note becomes its old value with the notes of the repositories before that one (all of them when none fails) merged in, in order |
| Notes.Compose | main.go:329-337 | the title is set and the notes of the colon-separated repositories are merged in, in order, up to the first failed listing, whose error is returned; with no failure every repository is merged and no error is returned |
| Options.AddOptions | main.go:83-101 | nil options return the URL unchanged with no error; a parse or encoding failure returns the URL unchanged with that error; success returns the URL with the encoded query |

## Left out

- The network and the client: `GetResponse` (the HTTP round trip, closing the body, JSON decoding, `github.CheckResponse`). `ListByRepo` builds the request and sets basic authentication. What listing the issues returns is a parameter of `Notes.GetNotes` and `Notes.Compose`.
- `main`'s environment variables, its usage text, `os.Exit` and `log.Fatalln`, and the `text/template` rendering. `Notes.Compose` returns the first listing error instead of exiting.
- `main`'s `note.MentionedPersons = note.Mentioned.String()` (main.go:338): the set library's `String` is not part of this model. The mention set is always empty, because the only call of `getMensionedPersons` is commented out.
- `getMensionedPersons` (a regular expression and a print), and the debug output of `GetNotes`.
- Responses.Response.PopulatePageValues: a url that `url.Parse` rejects is not modelled. Such a link is skipped in the source, but here its page is looked up like any other. Percent-decoding of the query is not modelled either.
- Pagination.QueryValue: it does not decode `%`-escapes or `+` in the page parameter.
- Responses.Response.SetRelations: the inner `for` loop of `populatePageValues` is a separate method in this model. Its `switch` is the method `SetSegment`, an `if` chain over the relation that the trimmed segment names.
- Responses.Response.PopulateLink: the body of the outer `for` loop of `populatePageValues` is a separate method in this model, and each `continue` is an early return.
- Notes.Note.Merge: merging a note into itself is not modelled as the source behaves. In the source the mention sets are merged by the external set library (main.go:69), which is not part of this model; the model's contract treats a self-merge as a merge of two copies. `main` never merges a note into itself.
- Notes.Note.Add: the body of the loop of `GetNotes` is a method of `Note` in this model.
- Notes.MergeRepo: the body of `main`'s loop over the repositories is a separate method in this model.
- Http.Get: header names are taken to be canonical already (`textproto.CanonicalMIMEHeaderKey` is not modelled).
- Numbers.Atoi: it assumes a 64-bit `int`. On that platform `Atoi` and `ParseInt(s, 10, 64)` return the same value, and the model uses one function for both.
- NoteText.LabelsText: each label's own `String()` rendering is taken as given data.
- NoteText.FormatDate: the `time.Time` internals are not modelled. Dates are (year, month, day) triples, and the layouts become zero-padded fields.
- Options.AddOptions: `url.Parse`, the reflection-based `query.Values` encoding and `URL.String` are function parameters.
- Go strings are byte strings; here strings are sequences of Unicode characters. `Split`, `TrimSpace` and the relation switch agree with Go on valid UTF-8, but header bytes that are not valid UTF-8 cannot be represented.
- Go's nil-pointer dereferences of optional issue fields (`*issue.Number`, `*issue.Title` and the others) are not modelled. Every issue carries all the fields it uses.
