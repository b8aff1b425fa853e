/** Cache freshness decisions: what an entry may be used for only gets worse with time. Header
    values enter as parsed; times are real numbers, in milliseconds for clocks and dates and in
    seconds for ages and lifetimes. */
module HttpCache {
  import opened Prelude

  /** A directive's argument: `Given(n)` with the number it was read as, zero if it is not one. */
  datatype Directive = Unset | Given(seconds: real)

  /** The `max-stale` of a request, whose text is compared as a number. */
  datatype MaxStale = Absent | Unlimited | Limit(seconds: real) | NotANumber

  /** A date header: missing or empty, present but unreadable, or a time. */
  datatype DateHeader = NoDate | BadDate | At(ms: real)

  datatype Vary = NoVary | Star | Fields(names: seq<string>)

  type Headers = map<string, string>

  /** The cached response and the request it answered. */
  datatype Policy = Policy(
    responseTime: real, shared: bool, heuristic: real, immutableMinTtl: real, status: int, method_: string, url: string,
    host: Option<string>, noAuthorization: bool, requestHeaders: Headers, requestNoStore: bool,
    noStore: bool, noCache: bool, isPrivate: bool, isPublic: bool, immutable: bool, mustRevalidate: bool,
    proxyRevalidate: bool, maxAge: Directive, sMaxAge: Directive, staleWhileRevalidate: real,
    setCookie: bool, vary: Vary, ageHeader: real, date: DateHeader, expires: DateHeader, lastModified: DateHeader)

  datatype Request = Request(url: string, method_: Option<string>, headers: Headers, host: Option<string>,
                             noCache: bool, maxAge: Directive, minFresh: Directive, maxStale: MaxStale)

  // --- what does not depend on the clock ---

  const CACHEABLE_BY_DEFAULT: set<int> := {200, 203, 204, 206, 300, 301, 308, 404, 405, 410, 414, 501}
  const UNDERSTOOD: set<int> := {200, 203, 204, 300, 301, 302, 303, 307, 308, 404, 405, 410, 414, 501}

  predicate HasExplicitExpiration(p: Policy) {
    (p.shared && p.sMaxAge.Given?) || p.maxAge.Given? || !p.expires.NoDate?
  }

  predicate AllowsStoringAuthenticated(p: Policy) {
    p.mustRevalidate || p.isPublic || p.sMaxAge.Given?
  }

  predicate Storable(p: Policy) {
    && !p.requestNoStore
    && (p.method_ == "GET" || p.method_ == "HEAD" || (p.method_ == "POST" && HasExplicitExpiration(p)))
    && p.status in UNDERSTOOD && !p.noStore
    && (!p.shared || !p.isPrivate)
    && (!p.shared || p.noAuthorization || AllowsStoringAuthenticated(p))
    && (HasExplicitExpiration(p) || p.isPublic || p.status in CACHEABLE_BY_DEFAULT)
  }

  function Max(a: real, b: real): (m: real) {
    if a >= b then a else b
  }

  /** When the response was made, by its own account or else when it came in. */
  function ServerDate(p: Policy): (ms: real) {
    if p.date.At? then p.date.ms else p.responseTime
  }

  /** The freshness lifetime in seconds, counted from the response's date. */
  function MaxAge(p: Policy): (seconds: real) {
    if !Storable(p) || p.noCache then 0.0
    else if p.shared && p.setCookie && !p.isPublic && !p.immutable then 0.0
    else if p.vary.Star? then 0.0
    else if p.shared && p.proxyRevalidate then 0.0
    else if p.shared && p.sMaxAge.Given? then p.sMaxAge.seconds
    else if p.maxAge.Given? then p.maxAge.seconds
    else
      var least, made := if p.immutable then p.immutableMinTtl else 0.0, ServerDate(p);
      match p.expires
      case BadDate => 0.0
      case At(expires) => if expires < made then 0.0 else Max(least, (expires - made) / 1000.0)
      case NoDate =>
        if p.lastModified.At? && made > p.lastModified.ms then
          Max(least, (made - p.lastModified.ms) / 1000.0 * p.heuristic)
        else least
  }

  function Lookup(h: Headers, name: string): (v: Option<string>) {
    if name in h then Some(h[name]) else None
  }

  predicate VaryMatches(p: Policy, r: Request) {
    match p.vary
    case NoVary => true
    case Star => false
    case Fields(names) => forall n :: n in names ==> Lookup(r.headers, n) == Lookup(p.requestHeaders, n)
  }

  predicate RequestMatches(p: Policy, r: Request) {
    && (p.url == "" || p.url == r.url) && p.host == r.host
    && (r.method_ == None || r.method_ == Some("") || r.method_ == Some(p.method_))
    && VaryMatches(p, r)
  }

  /** The entry can be used for the request at all, as long as it is young enough. */
  predicate Usable(p: Policy, r: Request) {
    MaxAge(p) > 0.0 && !p.mustRevalidate && RequestMatches(p, r) && !r.noCache
  }

  // --- what depends on the clock ---

  /** The response's age in seconds at `now`. */
  function Age(p: Policy, now: real): (seconds: real) {
    p.ageHeader + (now - p.responseTime) / 1000.0
  }

  predicate Stale(p: Policy, now: real) {
    MaxAge(p) <= Age(p, now)
  }

  predicate UseStaleWhileRevalidate(p: Policy, now: real) {
    p.staleWhileRevalidate > 0.0 && MaxAge(p) + p.staleWhileRevalidate > Age(p, now)
  }

  predicate AllowsStale(m: MaxStale, staleness: real) {
    m.Unlimited? || (m.Limit? && m.seconds > staleness)
  }

  /** The clock is read anew for each check of one evaluation. */
  datatype Readings = Readings(maxAge: real, minFresh: real, stale: real, maxStale: real, revalidate: real)

  predicate NotAfter(a: Readings, b: Readings) {
    && a.maxAge <= b.maxAge && a.minFresh <= b.minFresh && a.stale <= b.stale
    && a.maxStale <= b.maxStale && a.revalidate <= b.revalidate
  }

  datatype Decision = Hit | HitAndRevalidate | Miss {
    function Rank(): (n: nat) {
      match this case Hit => 0 case HitAndRevalidate => 1 case Miss => 2
    }
  }

  function EvaluateRequest(p: Policy, r: Request, t: Readings): (d: Decision) {
    if MaxAge(p) <= 0.0 then Miss
    else if p.mustRevalidate then Miss
    else if !RequestMatches(p, r) then Miss
    else if r.noCache then Miss
    else if r.maxAge.Given? && Age(p, t.maxAge) > r.maxAge.seconds then Miss
    else if r.minFresh.Given? && MaxAge(p) - Age(p, t.minFresh) < r.minFresh.seconds then Miss
    else if Stale(p, t.stale) then
      if AllowsStale(r.maxStale, Age(p, t.maxStale) - MaxAge(p)) then Hit
      else if UseStaleWhileRevalidate(p, t.revalidate) then HitAndRevalidate
      else Miss
    else Hit
  }

  lemma AgeGrows(p: Policy, a: real, b: real)
    requires a <= b
    ensures Age(p, a) <= Age(p, b)
  {
  }

  /** As the clock advances the answer only gets worse: served as it is, served while it is
      revalidated, not served. */
  lemma OnlyDegrades(p: Policy, r: Request, a: Readings, b: Readings)
    requires NotAfter(a, b)
    ensures EvaluateRequest(p, r, a).Rank() <= EvaluateRequest(p, r, b).Rank()
  {
    hide MaxAge, Age, RequestMatches;
    AgeGrows(p, a.maxAge, b.maxAge);
    AgeGrows(p, a.minFresh, b.minFresh);
    AgeGrows(p, a.stale, b.stale);
    AgeGrows(p, a.maxStale, b.maxStale);
    AgeGrows(p, a.revalidate, b.revalidate);
  }

  /** Over any number of evaluations of one entry for one request, with a clock that never
      runs backwards, a miss is final. */
  lemma {:induction false} MissIsFinal(p: Policy, r: Request, run: seq<Readings>, i: nat, j: nat)
    requires forall k :: 0 <= k < |run| - 1 ==> NotAfter(run[k], run[k + 1])
    requires i <= j < |run| && EvaluateRequest(p, r, run[i]) == Miss
    ensures EvaluateRequest(p, r, run[j]) == Miss
    decreases j
  {
    hide EvaluateRequest;
    if i < j {
      MissIsFinal(p, r, run, i, j - 1);
      assert NotAfter(run[j - 1], run[j - 1 + 1]);
      OnlyDegrades(p, r, run[j - 1], run[j]);
    }
  }

  // --- the two instants at which the answer switches ---

  /** How long something holds: at no time, before an instant or up to it, or at all times. */
  datatype Deadline = Never | Before(ms: real) | UpTo(ms: real) | Always {
    predicate Allows(now: real) {
      match this
      case Never => false
      case Before(ms) => now < ms
      case UpTo(ms) => now <= ms
      case Always => true
    }

    /** What holds as long as both hold. */
    function And(other: Deadline): (d: Deadline)
      ensures forall now :: d.Allows(now) <==> this.Allows(now) && other.Allows(now)
    {
      if Never? || other.Never? then Never
      else if Always? then other
      else if other.Always? then this
      else if ms < other.ms then this
      else if other.ms < ms then other
      else if Before? then this else other
    }
  }

  /** The instant at which the response reaches an age. */
  function InstantOfAge(p: Policy, age: real): (ms: real) {
    p.responseTime + (age - p.ageHeader) * 1000.0
  }

  lemma AgeReached(p: Policy, age: real, now: real)
    ensures Age(p, now) < age <==> now < InstantOfAge(p, age)
    ensures Age(p, now) <= age <==> now <= InstantOfAge(p, age)
  {
    var lived := (now - p.responseTime) / 1000.0;
    assert lived * 1000.0 == now - p.responseTime;
  }

  /** What the request itself bounds. */
  function RequestDeadline(p: Policy, r: Request): (d: Deadline) {
    var young := if r.maxAge.Given? then UpTo(InstantOfAge(p, r.maxAge.seconds)) else Always;
    var remaining := if r.minFresh.Given? then UpTo(InstantOfAge(p, MaxAge(p) - r.minFresh.seconds)) else Always;
    young.And(remaining)
  }

  /** The lifetime, prolonged by what the request tolerates or by `extra` seconds, whichever is more. */
  function LifetimeDeadline(p: Policy, r: Request, extra: real): (d: Deadline) {
    match r.maxStale
    case Unlimited => Always
    case Limit(seconds) => Before(InstantOfAge(p, MaxAge(p) + Max(seconds, extra)))
    case _ => Before(InstantOfAge(p, MaxAge(p) + extra))
  }

  /** Until when the entry answers the request without revalidation. */
  function FreeUntil(p: Policy, r: Request): (d: Deadline) {
    if Usable(p, r) then RequestDeadline(p, r).And(LifetimeDeadline(p, r, 0.0)) else Never
  }

  /** Until when it answers at all. */
  function ServedUntil(p: Policy, r: Request): (d: Deadline) {
    if Usable(p, r) then
      RequestDeadline(p, r).And(LifetimeDeadline(p, r, Max(0.0, p.staleWhileRevalidate)))
    else Never
  }

  /** At one reading of the clock: whatever is served is usable, not older than the request
      allows, and past its lifetime only by less than the request's `max-stale` or the
      response's `stale-while-revalidate`. */
  lemma ServedAtOnce(p: Policy, r: Request, now: real)
    ensures var t, over := Readings(now, now, now, now, now), Age(p, now) - MaxAge(p);
            var young := && (r.maxAge.Given? ==> Age(p, now) <= r.maxAge.seconds)
                         && (r.minFresh.Given? ==> over <= -r.minFresh.seconds);
            && (EvaluateRequest(p, r, t) == Hit <==>
                  Usable(p, r) && young && (over < 0.0 || AllowsStale(r.maxStale, over)))
            && (EvaluateRequest(p, r, t) != Miss <==>
                  Usable(p, r) && young
                  && (over < 0.0 || AllowsStale(r.maxStale, over) || over < p.staleWhileRevalidate))
  {
    hide MaxAge, Age, RequestMatches;
  }

  lemma RequestBounds(p: Policy, r: Request, now: real)
    ensures RequestDeadline(p, r).Allows(now)
            <==> && (r.maxAge.Given? ==> Age(p, now) <= r.maxAge.seconds)
                 && (r.minFresh.Given? ==> Age(p, now) - MaxAge(p) <= -r.minFresh.seconds)
  {
    hide MaxAge, Age, InstantOfAge;
    if r.maxAge.Given? {
      AgeReached(p, r.maxAge.seconds, now);
    }
    if r.minFresh.Given? {
      AgeReached(p, MaxAge(p) - r.minFresh.seconds, now);
    }
  }

  lemma LifetimeBounds(p: Policy, r: Request, extra: real, now: real)
    requires extra >= 0.0
    ensures var over := Age(p, now) - MaxAge(p);
            LifetimeDeadline(p, r, extra).Allows(now)
            <==> over < 0.0 || AllowsStale(r.maxStale, over) || over < extra
  {
    hide MaxAge, Age, InstantOfAge;
    AgeReached(p, MaxAge(p) + extra, now);
    if r.maxStale.Limit? {
      AgeReached(p, MaxAge(p) + Max(r.maxStale.seconds, extra), now);
    }
  }

  lemma SwitchesAtOnce(p: Policy, r: Request, now: real)
    ensures var d := EvaluateRequest(p, r, Readings(now, now, now, now, now));
            (d == Hit <==> FreeUntil(p, r).Allows(now)) && (d != Miss <==> ServedUntil(p, r).Allows(now))
  {
    hide MaxAge, Age, Usable, EvaluateRequest, RequestDeadline, LifetimeDeadline, AllowsStale;
    ServedAtOnce(p, r, now);
    RequestBounds(p, r, now);
    LifetimeBounds(p, r, 0.0, now);
    LifetimeBounds(p, r, Max(0.0, p.staleWhileRevalidate), now);
  }

  /** All checks of one evaluation read the clock between `first` and `last`. */
  predicate Within(t: Readings, first: real, last: real) {
    && first <= t.maxAge <= last && first <= t.minFresh <= last && first <= t.stale <= last
    && first <= t.maxStale <= last && first <= t.revalidate <= last
  }

  /** Entry and request fix two instants before any clock is read. An evaluation that ends while
      the first one allows it serves without revalidation, one that begins later does not; the
      same for the second one and being served at all. At a single reading this is exact. */
  lemma AnswerSwitches(p: Policy, r: Request, t: Readings, first: real, last: real)
    requires Within(t, first, last)
    ensures FreeUntil(p, r).Allows(last) ==> EvaluateRequest(p, r, t) == Hit
    ensures EvaluateRequest(p, r, t) == Hit ==> FreeUntil(p, r).Allows(first)
    ensures ServedUntil(p, r).Allows(last) ==> EvaluateRequest(p, r, t) != Miss
    ensures EvaluateRequest(p, r, t) != Miss ==> ServedUntil(p, r).Allows(first)
  {
    hide EvaluateRequest, FreeUntil, ServedUntil;
    SwitchesAtOnce(p, r, first);
    SwitchesAtOnce(p, r, last);
    OnlyDegrades(p, r, Readings(first, first, first, first, first), t);
    OnlyDegrades(p, r, t, Readings(last, last, last, last, last));
  }

  // --- entries that are never served ---

  /** A reason for a lifetime of zero that no explicit lifetime outweighs. */
  predicate Zeroed(p: Policy) {
    || !Storable(p) || p.noCache || p.vary.Star?
    || (p.shared && (p.proxyRevalidate || (p.setCookie && !p.isPublic && !p.immutable)))
  }

  /** The response's date is its only lifetime, and it is unreadable or already past. */
  predicate Expired(p: Policy) {
    && !p.maxAge.Given? && (p.shared ==> !p.sMaxAge.Given?)
    && (p.expires.BadDate? || (p.expires.At? && p.expires.ms < ServerDate(p)))
  }

  /** An entry without a lifetime is never served, whatever the request tolerates. */
  lemma NoLifetimeNoHit(p: Policy, r: Request, t: Readings)
    requires Zeroed(p) || Expired(p)
      || (p.shared && p.sMaxAge.Given? && p.sMaxAge.seconds <= 0.0)
      || (!(p.shared && p.sMaxAge.Given?) && p.maxAge.Given? && p.maxAge.seconds <= 0.0)
    ensures EvaluateRequest(p, r, t) == Miss
  {
  }

  /** What a cache must not reuse for anybody: forbidden by either side, private or authorised
      content in a shared cache without leave, answers to unsafe methods or partial ones. */
  lemma ForbiddenNeverServed(p: Policy, r: Request, t: Readings)
    requires || p.requestNoStore || p.noStore || p.noCache || p.mustRevalidate
             || (p.shared && p.isPrivate)
             || (p.shared && !p.noAuthorization && !p.isPublic && p.sMaxAge.Unset?)
             || (p.shared && p.setCookie && !p.isPublic && !p.immutable)
             || p.vary.Star?
             || p.method_ !in {"GET", "HEAD", "POST"}
             || (p.method_ == "POST" && p.maxAge.Unset? && p.sMaxAge.Unset? && p.expires.NoDate?)
             || p.status in {206, 304, 401, 500, 503}
             || (p.status in {302, 303, 307} && !p.isPublic && p.maxAge.Unset? && p.sMaxAge.Unset? && p.expires.NoDate?)
    ensures EvaluateRequest(p, r, t) == Miss
  {
  }

  /** An answer is only given to the request it belongs to, and only if that does not ask for
      a fresh one. */
  lemma ServedToItsRequest(p: Policy, r: Request, t: Readings)
    requires EvaluateRequest(p, r, t) != Miss
    ensures p.url != "" ==> r.url == p.url
    ensures r.host == p.host && !r.noCache
    ensures r.method_.Some? && r.method_.value != "" ==> r.method_.value == p.method_
    ensures p.vary.Fields? ==>
      forall n :: n in p.vary.names ==>
        (n in r.headers <==> n in p.requestHeaders) && (n in r.headers ==> r.headers[n] == p.requestHeaders[n])
  {
    hide MaxAge, Age;
    if p.vary.Fields? {
      forall n | n in p.vary.names ensures Lookup(r.headers, n) == Lookup(p.requestHeaders, n) {
      }
    }
  }

  /** The request the entry was stored for, asked again without conditions. */
  function SameRequest(p: Policy): (r: Request) {
    Request(p.url, None, p.requestHeaders, p.host, false, Unset, Unset, Absent)
  }

  /** An entry is never served, to no request at no time, if and only if it has no lifetime or
      must be revalidated; otherwise the very request it was stored for is served while it is fresh. */
  lemma NeverServed(p: Policy)
    ensures (forall r, t :: EvaluateRequest(p, r, t) == Miss) <==> MaxAge(p) <= 0.0 || p.mustRevalidate
  {
    if MaxAge(p) > 0.0 && !p.mustRevalidate {
      var now := InstantOfAge(p, 0.0);
      LifetimeNeedsVary(p);
      FreshIsServed(p, now);
    }
  }

  lemma LifetimeNeedsVary(p: Policy)
    requires MaxAge(p) > 0.0
    ensures !p.vary.Star?
  {
  }

  lemma FreshIsServed(p: Policy, now: real)
    requires !p.vary.Star? && MaxAge(p) > 0.0 && !p.mustRevalidate && now == InstantOfAge(p, 0.0)
    ensures EvaluateRequest(p, SameRequest(p), Readings(now, now, now, now, now)) == Hit
  {
    hide MaxAge, Age, InstantOfAge;
    AgeReached(p, MaxAge(p), now);
    AgeReached(p, 0.0, now);
  }

  // --- how long an ordinary response is fresh ---

  /** An ordinary answer to a GET, with nothing that forbids reusing it. */
  predicate Ordinary(p: Policy) {
    && p.method_ == "GET" && p.status == 200 && !p.requestNoStore && !p.noStore && !p.noCache && !p.mustRevalidate
    && !p.vary.Star? && (p.shared ==> !p.isPrivate && p.noAuthorization && !p.setCookie && !p.proxyRevalidate)
  }

  predicate Served(p: Policy, now: real) {
    EvaluateRequest(p, SameRequest(p), Readings(now, now, now, now, now)) == Hit
  }

  lemma ServedWhileFresh(p: Policy, now: real)
    requires Ordinary(p)
    ensures Served(p, now) <==> 0.0 < MaxAge(p) && Age(p, now) < MaxAge(p)
  {
    hide MaxAge, Age;
  }

  /** Asked for again without conditions, an ordinary response is served for as long as its age
      is below `s-maxage` in a shared cache, else `max-age`, else the time from its date to
      `expires`, or the least time for immutable ones if that is longer; a lifetime that is not
      positive is none. */
  lemma ExplicitLifetime(p: Policy, now: real)
    requires Ordinary(p)
    ensures p.shared && p.sMaxAge.Given? ==>
      (Served(p, now) <==> 0.0 < p.sMaxAge.seconds && Age(p, now) < p.sMaxAge.seconds)
    ensures !(p.shared && p.sMaxAge.Given?) && p.maxAge.Given? ==>
      (Served(p, now) <==> 0.0 < p.maxAge.seconds && Age(p, now) < p.maxAge.seconds)
    ensures !(p.shared && p.sMaxAge.Given?) && p.maxAge.Unset? && p.expires.At? && p.date.At? ==>
      (Served(p, now) <==>
         || (p.date.ms < p.expires.ms && 1000.0 * Age(p, now) < p.expires.ms - p.date.ms)
         || (p.date.ms <= p.expires.ms && p.immutable && 0.0 < p.immutableMinTtl && Age(p, now) < p.immutableMinTtl))
  {
    hide EvaluateRequest, Age, Served;
    ServedWhileFresh(p, now);
  }

  /** Without an explicit lifetime, an ordinary response is served until its age reaches the
      heuristic share of the time for which it had not been modified, or, if it is immutable,
      the least time for such responses. */
  lemma HeuristicLifetime(p: Policy, now: real)
    requires Ordinary(p) && p.maxAge.Unset? && (p.shared ==> p.sMaxAge.Unset?) && p.expires.NoDate?
    requires p.heuristic > 0.0
    ensures var made := if p.date.At? then p.date.ms else p.responseTime;
            Served(p, now) <==>
            || (p.lastModified.At? && p.lastModified.ms < made
                && 1000.0 * Age(p, now) < (made - p.lastModified.ms) * p.heuristic)
            || (p.immutable && 0.0 < p.immutableMinTtl && Age(p, now) < p.immutableMinTtl)
  {
    hide EvaluateRequest, Age, Served;
    ServedWhileFresh(p, now);
    if p.lastModified.At? {
      Share(ServerDate(p) - p.lastModified.ms, p.heuristic);
    }
  }

  lemma Share(unmodified: real, heuristic: real)
    ensures unmodified / 1000.0 * heuristic * 1000.0 == unmodified * heuristic
    ensures unmodified > 0.0 && heuristic > 0.0 ==> unmodified / 1000.0 * heuristic > 0.0
  {
    var u := unmodified / 1000.0;
    assert u * 1000.0 == unmodified;
    assert u * heuristic * 1000.0 == u * 1000.0 * heuristic;
  }
}
