/** What `Response.populateRate` computes from the three rate-limit headers. */
module RateLimit {
  import opened Wrappers
  import opened Numbers
  import opened Http

  /** `github.Rate`: the request quota, the requests left, and the moment the
      quota resets as Unix seconds; None stands for the zero `Timestamp`,
      "no reset known". */
  datatype Rate = Rate(limit: int, remaining: int, reset: Option<int>)

  /** A fresh response's rate: Go's zero values. */
  const NoRate := Rate(0, 0, None)

  /** `populateRate` on the rate `r`: each header is read on its own; an
      absent or empty header leaves its field as it was, a present one sets
      the field to its `Atoi` value, and a reset that reads as 0 (the header
      "0", or text that does not parse) is never recorded. */
  function ParseRate(r: Rate, h: Header): (q: Rate)
    ensures Get(h, RateLimitKey) == "" ==> q.limit == r.limit
    ensures Get(h, RateLimitKey) != "" ==> q.limit == Atoi(Get(h, RateLimitKey))
    ensures Get(h, RateRemainingKey) == "" ==> q.remaining == r.remaining
    ensures Get(h, RateRemainingKey) != "" ==> q.remaining == Atoi(Get(h, RateRemainingKey))
    ensures q.reset == r.reset || (Get(h, RateResetKey) != "" && q.reset == Some(Atoi(Get(h, RateResetKey))))
    ensures q.reset != r.reset ==> q.reset.Some? && q.reset.value != 0
    ensures Get(h, RateResetKey) != "" && Atoi(Get(h, RateResetKey)) != 0 ==>
      q.reset == Some(Atoi(Get(h, RateResetKey)))
  {
    var limit := Get(h, RateLimitKey);
    var remaining := Get(h, RateRemainingKey);
    var reset := Get(h, RateResetKey);
    Rate(if limit != "" then Atoi(limit) else r.limit,
         if remaining != "" then Atoi(remaining) else r.remaining,
         if reset != "" && Atoi(reset) != 0 then Some(Atoi(reset)) else r.reset)
  }

  /** Without any rate-limit header a fresh response reports no quota and no
      reset. */
  lemma NoRateHeaders(h: Header)
    requires RateLimitKey !in h && RateRemainingKey !in h && RateResetKey !in h
    ensures ParseRate(NoRate, h) == NoRate
  {
  }

  /** A reset header of "0" is treated as "no reset known". */
  lemma ZeroResetIgnored(r: Rate, h: Header)
    requires RateResetKey in h && h[RateResetKey] != [] && h[RateResetKey][0] == "0"
    ensures ParseRate(r, h).reset == r.reset
  {
    assert Atoi("0") == 0 by {
      assert ScanDigits("0", 0) == Parsed(0) by {
        assert "0"[1..] == "";
      }
    }
  }
}
