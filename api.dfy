/** The shapes of the Discourse JSON responses the userscripts read. */
module Api {
  import opened JsValues

  /** The outcome of one fetch: either a parsed body, or a rejection (a
      network error or bad JSON; in progress.js and progress.user.js also
      an HTTP error status, which the widget does not check). */
  datatype Response<+T> = Received(body: T) | Rejected

  /** `about.json`'s `about.stats`: the site-wide 30-day counters. */
  datatype SiteStats = SiteStats(posts30Days: int, topics30Days: int)

  /** An entry of `summary.json`'s `users` array; `trust_level` may be
      missing (None stands for both `undefined` and `null`). */
  datatype SummaryUser = SummaryUser(trustLevel: Option<int>)

  /** `summary.json`: the `user_summary` counters and the `users` array
      (a missing array is the empty sequence: both fall back alike). */
  datatype SummaryResponse = SummaryResponse(userSummary: Record, users: seq<SummaryUser>)

  /** `(udata.users && udata.users[0]) || {trust_level: 0}` followed by
      `.trust_level`: the first user's level, or 0 when there is no user. */
  function FirstUserLevel(users: seq<SummaryUser>): (l: Option<int>)
    ensures users == [] ==> l == Some(0)
    ensures users != [] ==> l == users[0].trustLevel
  {
    if |users| > 0 then users[0].trustLevel else Some(0)
  }

  /** `res.users?.[0]?.trust_level ?? 0`: the first user's level, and 0 when
      there is no user or it carries no level. */
  function SummaryTrustLevel(users: seq<SummaryUser>): (l: int)
    ensures users != [] && users[0].trustLevel.Some? ==> l == users[0].trustLevel.value
    ensures (users == [] || users[0].trustLevel.None?) ==> l == 0
  {
    match FirstUserLevel(users)
    case Some(l) => l
    case None => 0
  }
}
