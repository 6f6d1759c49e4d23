/** What `Response.populatePageValues` computes from a `Link` header: a
    simplified reading of the `Link` header of section 3 of RFC 8288 in which
    each comma-separated link is `<url>; attr; attr ...`, the url's `page`
    query parameter is the page number, and the attributes `rel="next"`,
    `rel="prev"`, `rel="first"` and `rel="last"` say which page it is. */
module Pagination {
  import opened Wrappers
  import opened Text
  import opened Numbers
  import opened Http

  /** The four link relations the parser recognises. */
  datatype Rel = Next | Prev | First | Last

  /** `Response`'s `NextPage`, `PrevPage`, `FirstPage` and `LastPage`. */
  datatype Pages = Pages(next: int, prev: int, first: int, last: int)
  {
    function Get(rel: Rel): int
    {
      match rel
      case Next => next
      case Prev => prev
      case First => first
      case Last => last
    }

    function Set(rel: Rel, v: int): (q: Pages)
      ensures q.Get(rel) == v
      ensures forall other :: other != rel ==> q.Get(other) == Get(other)
    {
      match rel
      case Next => this.(next := v)
      case Prev => this.(prev := v)
      case First => this.(first := v)
      case Last => this.(last := v)
    }
  }

  /** A fresh response's page fields: Go's zero values. */
  const NoPages := Pages(0, 0, 0, 0)

  /** The attribute text that marks each relation, exactly as the switch in
      `populatePageValues` spells it. */
  function RelText(rel: Rel): string
  {
    match rel
    case Next => "rel=\"next\""
    case Prev => "rel=\"prev\""
    case First => "rel=\"first\""
    case Last => "rel=\"last\""
  }

  lemma RelTextsDistinct()
    ensures forall a: Rel, b: Rel :: a != b ==> RelText(a) != RelText(b)
  {
    assert RelText(Next)[5] == 'n' && RelText(Prev)[5] == 'p';
    assert RelText(First)[5] == 'f' && RelText(Last)[5] == 'l';
  }

  /** The relation a `;`-separated segment names once trimmed, if any. */
  function RelOf(segment: string): (r: Option<Rel>)
  {
    var t := TrimSpace(segment);
    RelTextsDistinct();
    if t == RelText(Next) then Some(Next)
    else if t == RelText(Prev) then Some(Prev)
    else if t == RelText(First) then Some(First)
    else if t == RelText(Last) then Some(Last)
    else None
  }

  /** A segment names a relation exactly when, trimmed, it is that
      relation's attribute text. */
  lemma RelOfNames(segment: string, rel: Rel)
    ensures RelOf(segment) == Some(rel) <==> TrimSpace(segment) == RelText(rel)
  {
    RelTextsDistinct();
  }

  /** `url.Values.Get(key)` over the `&`-separated pairs of a raw query: the
      value of the first pair whose key is `key` (a pair without `=` has the
      value ""), or "" when there is none. Empty pairs and pairs holding a
      `;` are dropped, as `url.ParseQuery` drops them from Go 1.17 on
      (earlier versions also split pairs at `;`). */
  function FirstValue(pairs: seq<string>, key: string): (v: string)
    ensures v != "" ==> exists i :: 0 <= i < |pairs| && pairs[i] == key + "=" + v
  {
    if pairs == [] then ""
    else
      var pair := pairs[0];
      var (k, v, _) := Cut(pair, '=');
      if ';' in pair || pair == "" || k != key then FirstValue(pairs[1..], key)
      else
        assert v != "" ==> pairs[0] == key + "=" + v;
        v
  }

  /** A pair the lookup of `key` passes over: dropped by the query parser,
      or holding another key. */
  predicate SkipsPair(pair: string, key: string)
  {
    ';' in pair || pair == "" || Cut(pair, '=').0 != key
  }

  /** The first pair that holds `key` decides the lookup: its value (the
      text after its first `=`, or "" when it has none) is the result,
      whatever later pairs hold. */
  lemma {:induction false} FirstValueFirst(pairs: seq<string>, key: string, i: nat)
    requires i < |pairs| && !SkipsPair(pairs[i], key)
    requires forall j :: 0 <= j < i ==> SkipsPair(pairs[j], key)
    ensures FirstValue(pairs, key) == Cut(pairs[i], '=').1
  {
    if i > 0 {
      assert SkipsPair(pairs[0], key);
      FirstValueFirst(pairs[1..], key, i - 1);
    }
  }

  /** In particular, `key=v` for a key without `=` gives `v` when no earlier
      pair holds the key. */
  lemma FirstValueFound(pairs: seq<string>, key: string, v: string, i: nat)
    requires '=' !in key && ';' !in key && ';' !in v
    requires i < |pairs| && pairs[i] == key + "=" + v
    requires forall j :: 0 <= j < i ==> SkipsPair(pairs[j], key)
    ensures FirstValue(pairs, key) == v
  {
    CutParts(pairs[i], '=');
    var (k, rest, found) := Cut(pairs[i], '=');
    assert pairs[i][|key|] == '=';
    assert found;
    assert k == pairs[i][..|key|] == key;
    assert rest == pairs[i][|key| + 1..] == v;
    assert !SkipsPair(pairs[i], key);
    FirstValueFirst(pairs, key, i);
  }

  /** A key that no pair holds gives "". */
  lemma {:induction false} FirstValueAbsent(pairs: seq<string>, key: string)
    requires forall j :: 0 <= j < |pairs| ==> SkipsPair(pairs[j], key)
    ensures FirstValue(pairs, key) == ""
  {
    if pairs != [] {
      assert SkipsPair(pairs[0], key);
      FirstValueAbsent(pairs[1..], key);
    }
  }

  /** `url.Parse(rawURL).Query().Get(key)`: the fragment after the first `#`
      is dropped, the raw query is the text after the first `?`. */
  function QueryValue(rawURL: string, key: string): (v: string)
  {
    var (beforeFragment, _, _) := Cut(rawURL, '#');
    var (_, rawQuery, _) := Cut(beforeFragment, '?');
    FirstValue(Split(rawQuery, '&'), key)
  }

  /** The `;`-separated segments of one link, after trimming the link. */
  function Segments(link: string): (segs: seq<string>)
    ensures |segs| >= 1
  {
    Split(TrimSpace(link), ';')
  }

  /** `s` is wrapped in angle brackets: starts with `<` and ends with `>`. */
  predicate Bracketed(s: string)
    ensures Bracketed(s) ==> |s| >= 2 && s[0] == '<' && s[|s| - 1] == '>'
  {
    var b := HasPrefix(s, "<") && HasSuffix(s, ">");
    assert b ==> s[..1][0] == '<' && s[|s| - 1..][0] == '>';
    b
  }

  /** The `page` parameter of a link that the parser uses, or None when the
      parser skips the link: fewer than two segments, a first segment not in
      angle brackets, or no (or an empty) `page` parameter. */
  function LinkPage(link: string): (r: Option<string>)
    ensures r.Some? ==> r.value != ""
  {
    SegmentsPage(Segments(link))
  }

  /** `LinkPage` on a link already split into segments. */
  function SegmentsPage(segs: seq<string>): (r: Option<string>)
    ensures r.Some? ==> r.value != ""
  {
    if |segs| < 2 || !Bracketed(segs[0]) then None
    else
      var page := QueryValue(segs[0][1..|segs[0]| - 1], "page");
      if page == "" then None else Some(page)
  }

  /** Some segment of `segs` names `rel`. */
  predicate Names(segs: seq<string>, rel: Rel)
  {
    segs != [] && (Names(segs[..|segs| - 1], rel) || RelOf(segs[|segs| - 1]) == Some(rel))
  }

  /** A segment naming the relation makes `Names` hold... */
  lemma {:induction false} NamesSome(segs: seq<string>, rel: Rel, j: nat)
    requires j < |segs| && RelOf(segs[j]) == Some(rel)
    ensures Names(segs, rel)
  {
    var n := |segs| - 1;
    if j < n {
      assert segs[..n][j] == segs[j];
      NamesSome(segs[..n], rel, j);
    }
  }

  /** ...and `Names` holds only because some segment names the relation. */
  lemma {:induction false} NamesWitness(segs: seq<string>, rel: Rel) returns (j: nat)
    requires Names(segs, rel)
    ensures j < |segs| && RelOf(segs[j]) == Some(rel)
  {
    var n := |segs| - 1;
    if RelOf(segs[n]) == Some(rel) {
      j := n;
    } else {
      j := NamesWitness(segs[..n], rel);
      assert segs[..n][j] == segs[j];
    }
  }

  /** The inner loop of `populatePageValues`: every segment that names a
      relation sets that relation's field to `Atoi(page)`. A field changes
      exactly when some segment names its relation. */
  function ApplyRels(p: Pages, segs: seq<string>, page: string): Pages
  {
    if segs == [] then p
    else SetNamed(ApplyRels(p, segs[..|segs| - 1], page), segs[|segs| - 1], page)
  }

  /** The inner loop over `segs[1..]` one segment further on. */
  lemma ApplyRelsStep(p: Pages, segs: seq<string>, page: string, j: nat)
    requires 1 <= j < |segs|
    ensures ApplyRels(p, segs[1..j + 1], page) == SetNamed(ApplyRels(p, segs[1..j], page), segs[j], page)
  {
    var s := segs[1..j + 1];
    assert ApplyRels(p, s, page) == SetNamed(ApplyRels(p, s[..j - 1], page), s[j - 1], page);
    assert s[..j - 1] == segs[1..j];
    assert s[j - 1] == segs[j];
  }

  /** After the inner loop a field holds `Atoi(page)` exactly when some
      segment names its relation, and its old value otherwise. */
  lemma {:induction false} ApplyRelsNames(p: Pages, segs: seq<string>, page: string, rel: Rel)
    ensures ApplyRels(p, segs, page).Get(rel) == (if Names(segs, rel) then Atoi(page) else p.Get(rel))
  {
    if segs != [] {
      ApplyRelsNames(p, segs[..|segs| - 1], page, rel);
    }
  }

  /** One pass of the inner loop: the field of the relation `segment` names,
      if any, becomes `Atoi(page)`. */
  function SetNamed(p: Pages, segment: string, page: string): Pages
  {
    match RelOf(segment)
    case Some(rel) => p.Set(rel, Atoi(page))
    case None => p
  }

  /** A link the parser does not skip: its page parameter and its attribute
      segments (all segments after the bracketed url). */
  datatype ParsedLink = ParsedLink(page: string, attrs: seq<string>)

  /** The link as the parser reads it, or None for a link it skips. A link
      it reads has a non-empty page and at least one attribute segment;
      `ParseLinkCases` states which links it skips. */
  function ParseLink(link: string): (r: Option<ParsedLink>)
    ensures r.Some? ==> r.value.page != "" && |r.value.attrs| >= 1
  {
    match LinkPage(link)
    case None => None
    case Some(page) => Some(ParsedLink(page, Segments(link)[1..]))
  }

  /** The parser skips a link exactly when its trimmed text has fewer than
      two `;`-separated segments, its first segment is not in angle
      brackets, or the url inside the brackets has no (or an empty) `page`
      parameter. A link it does not skip yields that parameter as its page
      and the segments after the url as its attributes; `LinkPage` is that
      page. */
  lemma ParseLinkCases(link: string)
    ensures var segs := Segments(link);
      ParseLink(link).None? <==>
        (|segs| < 2 || !Bracketed(segs[0]) || QueryValue(segs[0][1..|segs[0]| - 1], "page") == "")
    ensures ParseLink(link).Some? ==> var segs := Segments(link);
      |segs| >= 2 && Bracketed(segs[0]) &&
      ParseLink(link).value == ParsedLink(QueryValue(segs[0][1..|segs[0]| - 1], "page"), segs[1..])
    ensures LinkPage(link) == (if ParseLink(link).None? then None else Some(ParseLink(link).value.page))
  {
  }

  /** The page fields after one parsed link. */
  function Update(p: Pages, l: Option<ParsedLink>): Pages
  {
    match l
    case None => p
    case Some(ParsedLink(page, attrs)) => ApplyRels(p, attrs, page)
  }

  /** After one parsed link, every relation some attribute names takes
      `Atoi` of the page and every other field stays. */
  lemma UpdateFields(p: Pages, l: Option<ParsedLink>, rel: Rel)
    ensures Update(p, l).Get(rel) == (if Sets(l, rel) then Atoi(l.value.page) else p.Get(rel))
  {
    if l.Some? {
      ApplyRelsNames(p, l.value.attrs, l.value.page, rel);
    }
  }

  /** A parsed link sets `rel`. */
  predicate Sets(l: Option<ParsedLink>, rel: Rel)
  {
    l.Some? && Names(l.value.attrs, rel)
  }

  /** One pass of the outer loop of `populatePageValues`. */
  function ApplyLink(p: Pages, link: string): Pages
  {
    Update(p, ParseLink(link))
  }

  /** A skipped link changes no field; otherwise each field whose relation
      the link names becomes `Atoi` of the link's page, and the others
      stay. */
  lemma ApplyLinkFields(p: Pages, link: string, rel: Rel)
    ensures LinkPage(link).None? ==> ApplyLink(p, link) == p
    ensures ApplyLink(p, link).Get(rel) == (if Carries(link, rel) then Atoi(LinkPage(link).value) else p.Get(rel))
  {
    UpdateFields(p, ParseLink(link), rel);
  }

  /** The outer loop of `populatePageValues`: the links applied in order. */
  function ApplyLinks(p: Pages, links: seq<string>): (q: Pages)
  {
    if links == [] then p
    else ApplyLink(ApplyLinks(p, links[..|links| - 1]), links[|links| - 1])
  }

  /** `populatePageValues` on the fields `p`: only the first `Link` header
      value is read, split on commas; without a `Link` header nothing
      changes. */
  function ParsePages(p: Pages, h: Header): (q: Pages)
    ensures (LinkKey !in h || h[LinkKey] == []) ==> q == p
  {
    if LinkKey in h && |h[LinkKey]| > 0 then ApplyLinks(p, Split(h[LinkKey][0], ',')) else p
  }

  /** A link carries a page for `rel`: the parser does not skip it, and one
      of its attribute segments names `rel`. */
  predicate Carries(link: string, rel: Rel)
  {
    Sets(ParseLink(link), rel)
  }

  /** A field that no link carries keeps its old value. */
  lemma ApplyLinksUncarried(p: Pages, links: seq<string>, rel: Rel)
    requires forall i :: 0 <= i < |links| ==> !Carries(links[i], rel)
    ensures ApplyLinks(p, links).Get(rel) == p.Get(rel)
  {
    UncarriedUpTo(p, links, rel, |links|);
    assert links[..|links|] == links;
  }

  /** `ApplyLinksUncarried` for the first `k` links. */
  lemma {:induction false} UncarriedUpTo(p: Pages, links: seq<string>, rel: Rel, k: nat)
    requires k <= |links|
    requires forall i :: 0 <= i < |links| ==> !Carries(links[i], rel)
    ensures ApplyLinks(p, links[..k]).Get(rel) == p.Get(rel)
  {
    if k > 0 {
      var prev := links[..k - 1];
      assert links[..k][..k - 1] == prev && links[..k][k - 1] == links[k - 1];
      UncarriedUpTo(p, links, rel, k - 1);
      ApplyLinkFields(ApplyLinks(p, prev), links[k - 1], rel);
    }
  }

  /** Last link wins: a field holds `Atoi` of the page of the LAST link that
      carries its relation, whatever earlier links carried. */
  lemma ApplyLinksLastWins(p: Pages, links: seq<string>, rel: Rel, i: nat)
    requires i < |links| && Carries(links[i], rel)
    requires forall j :: i < j < |links| ==> !Carries(links[j], rel)
    ensures ApplyLinks(p, links).Get(rel) == Atoi(LinkPage(links[i]).value)
  {
    LastWinsUpTo(p, links, rel, i, |links|);
    assert links[..|links|] == links;
  }

  /** `ApplyLinksLastWins` for the first `k` links, where `k` is past the
      carrying link `i`. */
  lemma {:induction false} LastWinsUpTo(p: Pages, links: seq<string>, rel: Rel, i: nat, k: nat)
    requires i < k <= |links| && Carries(links[i], rel)
    requires forall j :: i < j < |links| ==> !Carries(links[j], rel)
    ensures ApplyLinks(p, links[..k]).Get(rel) == Atoi(LinkPage(links[i]).value)
  {
    var prev := links[..k - 1];
    assert links[..k][..k - 1] == prev && links[..k][k - 1] == links[k - 1];
    ApplyLinkFields(ApplyLinks(p, prev), links[k - 1], rel);
    if i < k - 1 {
      LastWinsUpTo(p, links, rel, i, k - 1);
    }
  }
}
