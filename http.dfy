/** The slice of `net/http` the response wrapper reads: a header is a map from
    canonical header names to their values in order of arrival. */
module Http {

  /** `http.Header`, keyed by canonical MIME header names (`textproto`'s
      form: "X-Ratelimit-Limit", not "X-RateLimit-Limit"). */
  type Header = map<string, seq<string>>

  const LinkKey: string := "Link"
  /** The canonical forms of the names the program spells "X-RateLimit-Limit",
      "X-RateLimit-Remaining" and "X-RateLimit-Reset": `Header.Get`
      canonicalises the name it is given before the lookup. */
  const RateLimitKey: string := "X-Ratelimit-Limit"
  const RateRemainingKey: string := "X-Ratelimit-Remaining"
  const RateResetKey: string := "X-Ratelimit-Reset"

  /** `Header.Get`: the first value under `key`, or "" when there is none. */
  function Get(h: Header, key: string): (v: string)
    ensures (key !in h || h[key] == []) ==> v == ""
    ensures key in h && h[key] != [] ==> v == h[key][0]
  {
    if key in h && h[key] != [] then h[key][0] else ""
  }
}
