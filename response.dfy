/** `Response`: the wrapper around an HTTP response that `newResponse` builds,
    with the pagination fields read from the `Link` header and the rate-limit
    fields read from the `X-RateLimit-*` headers. The body is never read. */
module Responses {
  import opened Wrappers
  import opened Text
  import opened Numbers
  import opened Http
  import opened Pagination
  import opened RateLimit

  class Response {
    /** The wrapped response's header; nothing here changes it. */
    const header: Header

    var nextPage: int
    var prevPage: int
    var firstPage: int
    var lastPage: int

    /** The embedded `github.Rate`. */
    var limit: int
    var remaining: int
    var reset: Option<int>

    function PageFields(): Pages
      reads this
    {
      Pages(nextPage, prevPage, firstPage, lastPage)
    }

    function RateFields(): Rate
      reads this
    {
      Rate(limit, remaining, reset)
    }

    /** `newResponse`: every field starts at its zero value, then the page
        values and the rate are read from the header. */
    constructor (h: Header)
      ensures header == h
      ensures PageFields() == ParsePages(NoPages, h)
      ensures RateFields() == ParseRate(NoRate, h)
    {
      header := h;
      nextPage, prevPage, firstPage, lastPage := 0, 0, 0, 0;
      limit, remaining, reset := 0, 0, None;
      new;
      PopulatePageValues();
      PopulateRate();
    }

    /** `populatePageValues`: splits the first `Link` value on commas and,
        for each link it does not skip, sets the field of every relation an
        attribute names to the link's page. The rate is not touched. */
    method PopulatePageValues()
      modifies this`nextPage, this`prevPage, this`firstPage, this`lastPage
      ensures PageFields() == ParsePages(old(PageFields()), header)
    {
      if LinkKey in header && |header[LinkKey]| > 0 {
        var links := Split(header[LinkKey][0], ',');
        ghost var start := PageFields();
        var i := 0;
        while i < |links|
          invariant 0 <= i <= |links|
          invariant PageFields() == ApplyLinks(start, links[..i])
        {
          assert links[..i + 1][..i] == links[..i];
          assert ApplyLinks(start, links[..i + 1]) == ApplyLink(ApplyLinks(start, links[..i]), links[i]);
          PopulateLink(links[i]);
          i := i + 1;
        }
        assert links[..i] == links;
        assert ParsePages(start, header) == ApplyLinks(start, links);
      }
    }

    /** One pass of the outer loop of `populatePageValues`: a link with
        fewer than two segments, a url not in angle brackets or no page
        parameter is skipped; otherwise the relations its segments name get
        the page. */
    method PopulateLink(link: string)
      modifies this`nextPage, this`prevPage, this`firstPage, this`lastPage
      ensures PageFields() == ApplyLink(old(PageFields()), link)
    {
      var segments := Split(TrimSpace(link), ';');
      assert LinkPage(link) == SegmentsPage(segments);
      // a link must at least have a url and a relation
      if |segments| < 2 {
        return;
      }
      // the url must be wrapped in angle brackets
      if !HasPrefix(segments[0], "<") || !HasSuffix(segments[0], ">") {
        return;
      }
      assert Bracketed(segments[0]);
      var page := QueryValue(segments[0][1..|segments[0]| - 1], "page");
      if page == "" {
        return;
      }
      assert ParseLink(link) == Some(ParsedLink(page, segments[1..]));
      SetRelations(segments, page);
    }

    /** The inner loop of `populatePageValues`, over the segments after the
        url: each segment that names a relation sets that relation's field
        to `Atoi(page)`. */
    method SetRelations(segments: seq<string>, page: string)
      requires |segments| >= 1
      modifies this`nextPage, this`prevPage, this`firstPage, this`lastPage
      ensures PageFields() == ApplyRels(old(PageFields()), segments[1..], page)
    {
      ghost var before := PageFields();
      var j := 1;
      assert segments[1..1] == [];
      while j < |segments|
        invariant 1 <= j <= |segments|
        invariant PageFields() == ApplyRels(before, segments[1..j], page)
      {
        ApplyRelsStep(before, segments, page, j);
        SetSegment(segments[j], page);
        j := j + 1;
      }
      assert segments[1..j] == segments[1..];
    }

    /** The `switch` on one trimmed segment: the field of the relation it
        names, if any, becomes `Atoi(page)`. */
    method SetSegment(segment: string, page: string)
      modifies this`nextPage, this`prevPage, this`firstPage, this`lastPage
      ensures PageFields() == SetNamed(old(PageFields()), segment, page)
    {
      var rel := RelOf(segment);
      if rel == Some(Next) {
        nextPage := Atoi(page);
      } else if rel == Some(Prev) {
        prevPage := Atoi(page);
      } else if rel == Some(First) {
        firstPage := Atoi(page);
      } else if rel == Some(Last) {
        lastPage := Atoi(page);
      }
    }

    /** `populateRate`: each of the three headers, when present and
        non-empty, sets its field; a reset is recorded only when it is not
        0. The page fields are not touched. */
    method PopulateRate()
      modifies this`limit, this`remaining, this`reset
      ensures RateFields() == ParseRate(old(RateFields()), header)
    {
      var l := Get(header, RateLimitKey);
      if l != "" {
        limit := Atoi(l);
      }
      var r := Get(header, RateRemainingKey);
      if r != "" {
        remaining := Atoi(r);
      }
      var s := Get(header, RateResetKey);
      if s != "" {
        var v := Atoi(s);
        if v != 0 {
          reset := Some(v);
        }
      }
    }
  }
}
