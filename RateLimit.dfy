/**
 * The fixed-window, per-client-IP rate limiter that guards the translation
 * API route.  The in-memory table `ip -> {count, resetTime}` is the field
 * `store` of a `RateLimiter` object; a request is one call of `Middleware`,
 * the periodic sweep one call of `CleanupStore`.  The clock is a parameter
 * (milliseconds, as `Date.now()` returns them).
 *
 * `Transition` and `Cleaned` are the specification functions the two methods
 * are proved against; the properties of the limiter are stated about them.
 */
module RateLimit {
  import opened Strings

  /** Requests a client may make per window. */
  const MAX_REQUESTS_PER_MINUTE: int := 10
  /** Length of a window in milliseconds. */
  const RATE_LIMIT_WINDOW: int := 60 * 1000
  /** Only request paths with this prefix are counted. */
  const TRANSLATE_PREFIX: string := "/api/translate"
  /** The bucket of clients that send no usable address header. */
  const UNKNOWN_IP: string := "unknown-ip"

  /** One row of the table: requests accepted in the current window, and when the window ends. */
  datatype Entry = Entry(count: int, resetTime: int)

  /** What the middleware answers: let the request through, or status 429 with a Retry-After in seconds. */
  datatype Verdict = Next | TooManyRequests(retryAfter: int)

  type Store = map<string, Entry>

  /** Request headers by (lower-case) name; a missing key is a header `get` returning null. */
  type Headers = map<string, string>

  datatype StepResult = StepResult(store: Store, verdict: Verdict)

  /** Every count in the table is between 0 and the limit. */
  ghost predicate CountsBounded(store: Store) {
    forall ip :: ip in store ==> 0 <= store[ip].count <= MAX_REQUESTS_PER_MINUTE
  }

  /** No window in the table ends later than one window after `now`. */
  ghost predicate WithinHorizon(store: Store, now: int) {
    forall ip :: ip in store ==> store[ip].resetTime <= now + RATE_LIMIT_WINDOW
  }

  // ---------------------------------------------------------------------------
  // Client address

  /** `s.split(',')[0]`: the text before the first comma, or all of `s`. */
  function FirstField(s: string): (r: string)
    ensures r <= s
    ensures ',' !in r
    ensures r == s || s[|r|] == ','
  {
    if s == [] || s[0] == ',' then [] else [s[0]] + FirstField(s[1..])
  }

  /** A header counts only when present and non-empty (a JavaScript truthiness test). */
  predicate HasValue(headers: Headers, name: string) {
    name in headers && headers[name] != []
  }

  /**
   * `getClientIp`: the first comma-separated field of `x-forwarded-for`,
   * trimmed; failing that `x-real-ip`; failing that a shared fallback name.
   */
  function GetClientIp(headers: Headers): (ip: string)
    ensures HasValue(headers, "x-forwarded-for") ==>
      && ip == Trim(FirstField(headers["x-forwarded-for"]))
      && ',' !in ip
      && (forall c :: c in ip ==> c in headers["x-forwarded-for"])
    ensures !HasValue(headers, "x-forwarded-for") && HasValue(headers, "x-real-ip") ==>
      ip == headers["x-real-ip"]
    ensures !HasValue(headers, "x-forwarded-for") && !HasValue(headers, "x-real-ip") ==>
      ip == UNKNOWN_IP
  {
    if HasValue(headers, "x-forwarded-for") then
      var first := FirstField(headers["x-forwarded-for"]);
      assert forall c :: c in first ==> c in headers["x-forwarded-for"];
      Trim(first)
    else if HasValue(headers, "x-real-ip") then
      headers["x-real-ip"]
    else
      UNKNOWN_IP
  }

  // ---------------------------------------------------------------------------
  // One request

  /** `Math.ceil(millis / 1000)`: the least whole number of seconds covering `millis`. */
  function RetryAfterSeconds(millis: int): (seconds: int)
    ensures 1000 * (seconds - 1) < millis <= 1000 * seconds
  {
    -((-millis) / 1000)
  }

  /** The entry is missing or its window is over, so it is (re)started. */
  predicate NeedsReset(store: Store, ip: string, now: int) {
    ip !in store || store[ip].resetTime < now
  }

  /** The entry the limit is checked against: the stored one, or a fresh window. */
  function Refreshed(store: Store, ip: string, now: int): (e: Entry)
    ensures e.resetTime >= now
    ensures NeedsReset(store, ip, now) ==> e == Entry(0, now + RATE_LIMIT_WINDOW)
    ensures !NeedsReset(store, ip, now) ==> e == store[ip]
  {
    if NeedsReset(store, ip, now) then Entry(0, now + RATE_LIMIT_WINDOW) else store[ip]
  }

  /**
   * The effect of one request on the table and the answer it gets.  Other
   * paths pass untouched; a client at the limit is refused without any change
   * to the table; any other request is let through and counted.
   */
  function Transition(store: Store, path: string, ip: string, now: int): (r: StepResult)
    ensures !(TRANSLATE_PREFIX <= path) ==> r == StepResult(store, Next)
    ensures TRANSLATE_PREFIX <= path ==>
      var e := Refreshed(store, ip, now);
      && (r.verdict.TooManyRequests? <==> e.count >= MAX_REQUESTS_PER_MINUTE)
      && (r.verdict.TooManyRequests? ==>
            r.store == store && r.verdict.retryAfter == RetryAfterSeconds(e.resetTime - now))
      && (r.verdict.Next? ==> r.store == store[ip := Entry(e.count + 1, e.resetTime)])
    ensures forall other :: other != ip ==>
      (other in r.store <==> other in store) && (other in store ==> r.store[other] == store[other])
    ensures CountsBounded(store) ==> CountsBounded(r.store)
    ensures r.verdict.TooManyRequests? ==> 0 <= r.verdict.retryAfter
    ensures r.verdict.TooManyRequests? && WithinHorizon(store, now) ==>
      r.verdict.retryAfter <= RATE_LIMIT_WINDOW / 1000
    ensures WithinHorizon(store, now) ==> WithinHorizon(r.store, now)
  {
    if !(TRANSLATE_PREFIX <= path) then
      StepResult(store, Next)
    else
      var e := Refreshed(store, ip, now);
      if e.count >= MAX_REQUESTS_PER_MINUTE then
        StepResult(store[ip := e], TooManyRequests(RetryAfterSeconds(e.resetTime - now)))
      else
        StepResult(store[ip := e.(count := e.count + 1)], Next)
  }

  /** The table after the periodic sweep: the expired rows are gone, the rest untouched. */
  function Cleaned(store: Store, now: int): (r: Store)
    ensures forall ip :: ip in r <==> ip in store && !(store[ip].resetTime < now)
    ensures forall ip :: ip in r ==> r[ip] == store[ip]
    ensures CountsBounded(store) ==> CountsBounded(r)
  {
    map ip | ip in store && !(store[ip].resetTime < now) :: store[ip]
  }

  // ---------------------------------------------------------------------------
  // The table as an object

  class RateLimiter {
    var store: Store

    ghost predicate Valid()
      reads this
    {
      CountsBounded(store)
    }

    constructor ()
      ensures Valid() && store == map[]
    {
      store := map[];
    }

    /** `middleware`: rate-limits requests to the translation route. */
    method Middleware(path: string, headers: Headers, now: int) returns (verdict: Verdict)
      requires Valid()
      modifies this
      ensures Valid()
      ensures StepResult(store, verdict) == Transition(old(store), path, GetClientIp(headers), now)
    {
      if TRANSLATE_PREFIX <= path {
        var ip := GetClientIp(headers);
        if ip !in store || store[ip].resetTime < now {
          store := store[ip := Entry(0, now + RATE_LIMIT_WINDOW)];
        }
        if store[ip].count >= MAX_REQUESTS_PER_MINUTE {
          var seconds := RetryAfterSeconds(store[ip].resetTime - now);
          return TooManyRequests(seconds);
        }
        store := store[ip := store[ip].(count := store[ip].count + 1)];
      }
      verdict := Next;
    }

    /** `cleanupStore`: deletes, key by key, every row whose window is over. */
    method CleanupStore(now: int)
      requires Valid()
      modifies this
      ensures Valid()
      ensures store == Cleaned(old(store), now)
    {
      var keys := store.Keys;
      while keys != {}
        invariant keys <= old(store).Keys
        invariant store == map ip | ip in old(store) && (ip in keys || !(old(store)[ip].resetTime < now)) :: old(store)[ip]
        decreases keys
      {
        var ip :| ip in keys;
        if store[ip].resetTime < now {
          store := store - {ip};
        }
        keys := keys - {ip};
      }
    }
  }

  // ---------------------------------------------------------------------------
  // Runs of events

  /** What can happen to the table: a request (with the client address resolved) or a sweep. */
  datatype Event = Request(path: string, ip: string, now: int) | Sweep(now: int)

  /** The table after a run of events, in order. */
  function Run(store: Store, events: seq<Event>): Store
    decreases |events|
  {
    if events == [] then store
    else
      var next := match events[0]
        case Request(path, ip, now) => Transition(store, path, ip, now).store
        case Sweep(now) => Cleaned(store, now);
      Run(next, events[1..])
  }

  /** How many requests of `client` a run lets through to the translation route. */
  function Accepted(store: Store, events: seq<Event>, client: string): nat
    decreases |events|
  {
    if events == [] then 0
    else match events[0]
      case Request(path, ip, now) =>
        var r := Transition(store, path, ip, now);
        (if ip == client && TRANSLATE_PREFIX <= path && r.verdict.Next? then 1 else 0)
          + Accepted(r.store, events[1..], client)
      case Sweep(now) => Accepted(Cleaned(store, now), events[1..], client)
  }

  /** Every event of the run happens no later than `deadline`. */
  ghost predicate NoLaterThan(events: seq<Event>, deadline: int) {
    forall i :: 0 <= i < |events| ==> events[i].now <= deadline
  }

  /**
   * Within one window (no event after its reset time) a client's row keeps
   * its reset time and counts exactly the requests let through, so no more
   * than the remaining allowance is let through.
   */
  lemma {:induction false} WindowAllowance(store: Store, events: seq<Event>, client: string)
    requires client in store && 0 <= store[client].count <= MAX_REQUESTS_PER_MINUTE
    requires NoLaterThan(events, store[client].resetTime)
    ensures var n := Accepted(store, events, client);
      && n <= MAX_REQUESTS_PER_MINUTE - store[client].count
      && client in Run(store, events)
      && Run(store, events)[client] == Entry(store[client].count + n, store[client].resetTime)
    decreases |events|
  {
    if events != [] {
      assert NoLaterThan(events[1..], store[client].resetTime) by {
        forall i | 0 <= i < |events[1..]| ensures events[1..][i].now <= store[client].resetTime {
          assert events[1..][i] == events[i + 1];
        }
      }
      assert events[0].now <= store[client].resetTime;
      match events[0]
      case Request(path, ip, now) =>
        var r := Transition(store, path, ip, now);
        WindowAllowance(r.store, events[1..], client);
      case Sweep(now) =>
        WindowAllowance(Cleaned(store, now), events[1..], client);
    }
  }

  /**
   * At most `MAX_REQUESTS_PER_MINUTE` requests of one client are let through
   * per window: a request that starts a window at `start` is followed by at
   * most `MAX_REQUESTS_PER_MINUTE - 1` accepted ones up to `start + RATE_LIMIT_WINDOW`.
   */
  lemma WindowLimit(store: Store, path: string, client: string, start: int, events: seq<Event>)
    requires TRANSLATE_PREFIX <= path && NeedsReset(store, client, start)
    requires NoLaterThan(events, start + RATE_LIMIT_WINDOW)
    ensures Accepted(store, [Request(path, client, start)] + events, client) <= MAX_REQUESTS_PER_MINUTE
  {
    var all := [Request(path, client, start)] + events;
    assert all[1..] == events;
    var r := Transition(store, path, client, start);
    assert r.store[client] == Entry(1, start + RATE_LIMIT_WINDOW);
    WindowAllowance(r.store, events, client);
  }
}
