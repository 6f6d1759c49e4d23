/** Adding list options to a request URL as its query string. Parsing the
    URL and encoding the options are the standard library's and
    go-querystring's business; they are passed in as functions. */
module Options {
  import opened Wrappers

  /** `addOptions(s, opt)`: `opt` is `None` for a nil options pointer;
      `parse` is `url.Parse`, giving a parsed URL of type `U` or an error;
      `encode` is `query.Values` followed by `Encode`; `withQuery` renders
      the parsed URL with its raw query replaced. The URL comes back
      unchanged with no error for nil options, and unchanged together with
      the first error met otherwise. */
  function AddOptions<O, U>(s: string, opt: Option<O>, parse: string -> Result<U>,
                            encode: O -> Result<string>, withQuery: (U, string) -> string): (r: (string, Option<Error>))
    ensures opt.None? ==> r == (s, None)
    ensures opt.Some? && parse(s).Failure? ==> r == (s, Some(parse(s).error))
    ensures opt.Some? && parse(s).Success? && encode(opt.value).Failure? ==> r == (s, Some(encode(opt.value).error))
    ensures r.1.Some? ==> r.0 == s
    ensures r.1.None? <==> opt.None? || (parse(s).Success? && encode(opt.value).Success?)
    ensures r.1.None? && opt.Some? ==> r.0 == withQuery(parse(s).value, encode(opt.value).value)
  {
    match opt
    case None => (s, None)
    case Some(o) =>
      match parse(s)
      case Failure(e) => (s, Some(e))
      case Success(u) =>
        match encode(o)
        case Failure(e) => (s, Some(e))
        case Success(q) => (withQuery(u, q), None)
  }
}
