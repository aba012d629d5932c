/**
 * `NovelDownloader.safe_request`: up to `max_retries + 1` requests, returning
 * at once on status 200 or 404, sleeping with exponential backoff after the
 * failed attempts numbered below `max_retries`, and returning None once the
 * attempts are used up.
 *
 * The network is a script: the k-th request (counting from 0) gets the k-th
 * outcome; a request past the end of the script fails as a connection error.
 */
module Fetcher {
  import opened Wrappers

  /** The `requests` exceptions the loop tells apart (all are retried alike). */
  datatype TransportError = Timeout | ConnectionError | OtherRequestError

  /** What one `session.request(...)` call produces. */
  datatype Outcome<B> = Reply(status: int, body: B) | Raised(error: TransportError)

  datatype Response<B> = Response(status: int, body: B)

  type Script<B> = seq<Outcome<B>>

  /** A request as the session sends it. */
  datatype Request = Request(verb: string, url: string, headers: map<string, string>, timeout: real)

  /** A `time.sleep` between attempts: after which attempt, and the delay before jitter. */
  datatype Sleep = Sleep(afterAttempt: nat, delay: real)

  /** The outcome the `k`-th request of the script meets. */
  function ReplyAt<B>(script: Script<B>, k: nat): Outcome<B> {
    if k < |script| then script[k] else Raised(ConnectionError)
  }

  /** The replies on which the loop returns at once: 200, and 404 (terminal for the resource). */
  predicate IsFinal<B>(o: Outcome<B>) {
    o.Reply? && (o.status == 200 || o.status == 404)
  }

  /** Drops the outcomes `used` requests have consumed. */
  function Consume<B>(script: Script<B>, used: nat): (rest: Script<B>)
    ensures |rest| == if used < |script| then |script| - used else 0
    ensures forall k :: ReplyAt(rest, k) == ReplyAt(script, used + k)
  {
    if used < |script| then script[used..] else []
  }

  /** The backoff delay before the `n`-th sleep (counting from 0): `initial * factor^n`. */
  function Backoff(initialDelay: real, backoffFactor: real, n: nat): real {
    if n == 0 then initialDelay else Backoff(initialDelay, backoffFactor, n - 1) * backoffFactor
  }

  /** The first `n` sleeps of the loop: the k-th follows attempt k and waits the k-th backoff delay. */
  function Sleeps(initialDelay: real, backoffFactor: real, n: nat): (r: seq<Sleep>)
    ensures |r| == n
    ensures forall i :: 0 <= i < n ==> r[i] == Sleep(i + 1, Backoff(initialDelay, backoffFactor, i))
  {
    if n == 0 then [] else Sleeps(initialDelay, backoffFactor, n - 1) + [Sleep(n, Backoff(initialDelay, backoffFactor, n - 1))]
  }

  /** The index of the first final reply among requests `k .. last`, if any. */
  function FirstFinal<B>(script: Script<B>, k: nat, last: int): (r: Option<nat>)
    ensures r.Some? ==> k <= r.value <= last && IsFinal(ReplyAt(script, r.value))
    ensures r.Some? ==> forall j :: k <= j < r.value ==> !IsFinal(ReplyAt(script, j))
    ensures r.None? ==> forall j :: k <= j <= last ==> !IsFinal(ReplyAt(script, j))
    decreases last + 1 - k
  {
    if k > last then None
    else if IsFinal(ReplyAt(script, k)) then Some(k)
    else FirstFinal(script, k + 1, last)
  }

  /** What `safe_request` returns: the first 200 or 404 among its `max_retries + 1` requests. */
  function RequestResult<B>(script: Script<B>, maxRetries: int): (r: Option<Response<B>>)
    ensures r.Some? <==> exists k :: 0 <= k <= maxRetries && IsFinal(ReplyAt(script, k))
    ensures r.Some? ==> r.value.status == 200 || r.value.status == 404
  {
    match FirstFinal(script, 0, maxRetries)
    case None => None
    case Some(k) => Some(Response(ReplyAt(script, k).status, ReplyAt(script, k).body))
  }

  /** How many requests `safe_request` sends: up to and including the first final reply, else every attempt. */
  function Attempts<B>(script: Script<B>, maxRetries: int): (n: nat)
    ensures maxRetries >= 0 ==> 1 <= n <= maxRetries + 1
    ensures maxRetries < 0 ==> n == 0
    ensures n > 0 ==> forall k :: 0 <= k < n - 1 ==> !IsFinal(ReplyAt(script, k))
    ensures n > 0 && n < maxRetries + 1 ==> IsFinal(ReplyAt(script, n - 1))
  {
    match FirstFinal(script, 0, maxRetries)
    case None => if maxRetries < 0 then 0 else maxRetries + 1
    case Some(k) => k + 1
  }

  /**
   * The retry loop. `requests` is the number of requests sent, `sleeps` the
   * sleeps taken between them. `attempt` is incremented before each request,
   * so `while attempt <= max_retries` allows `max_retries + 1` requests, and
   * a sleep follows only attempts numbered below `max_retries`: the last two
   * attempts run back to back.
   */
  method SafeRequest<B>(script: Script<B>, maxRetries: int, initialDelay: real, backoffFactor: real)
    returns (r: Option<Response<B>>, requests: nat, sleeps: seq<Sleep>)
    ensures r == RequestResult(script, maxRetries)
    ensures requests == Attempts(script, maxRetries)
    ensures requests <= if maxRetries < 0 then 0 else maxRetries + 1
    // A 200 or 404 is returned at once: no request follows it.
    ensures r.Some? ==> requests >= 1 && IsFinal(ReplyAt(script, requests - 1))
                        && r.value == Response(ReplyAt(script, requests - 1).status, ReplyAt(script, requests - 1).body)
    // Every reply before the returned one, and every reply when None is returned, was retried.
    ensures forall k :: 0 <= k < requests && (r.None? || k < requests - 1) ==> !IsFinal(ReplyAt(script, k))
    // None only once all `max_retries + 1` attempts are used.
    ensures r.None? ==> requests == if maxRetries < 0 then 0 else maxRetries + 1
    // Sleeps follow exactly the failed attempts numbered below `max_retries`, with exponential delays.
    ensures var failed := if r.Some? then requests - 1 else requests;
            |sleeps| == if failed < maxRetries then failed else if maxRetries > 0 then maxRetries - 1 else 0
    ensures forall i :: 0 <= i < |sleeps| ==>
              sleeps[i] == Sleep(i + 1, Backoff(initialDelay, backoffFactor, i)) && sleeps[i].afterAttempt < maxRetries
  {
    var attempt: nat := 0;
    var currentDelay := initialDelay;
    sleeps := [];
    while attempt <= maxRetries
      invariant maxRetries < 0 ==> attempt == 0
      invariant maxRetries >= 0 ==> attempt <= maxRetries + 1
      invariant FirstFinal(script, 0, maxRetries) == FirstFinal(script, attempt, maxRetries)
      invariant forall k :: 0 <= k < attempt ==> !IsFinal(ReplyAt(script, k))
      invariant |sleeps| == if attempt < maxRetries then attempt else if maxRetries > 0 then maxRetries - 1 else 0
      invariant sleeps == Sleeps(initialDelay, backoffFactor, |sleeps|)
      invariant currentDelay == Backoff(initialDelay, backoffFactor, |sleeps|)
      decreases maxRetries + 1 - attempt
    {
      attempt := attempt + 1;
      var outcome := ReplyAt(script, attempt - 1);
      if outcome.Reply? {
        if outcome.status == 200 {
          return Some(Response(outcome.status, outcome.body)), attempt, sleeps;
        }
        if outcome.status == 404 {
          return Some(Response(outcome.status, outcome.body)), attempt, sleeps;
        }
      }
      if attempt < maxRetries {
        sleeps := sleeps + [Sleep(attempt, currentDelay)];
        currentDelay := currentDelay * backoffFactor;
      }
    }
    return None, attempt, sleeps;
  }

  /** `session.headers.copy()` updated with the call's own headers: the call's win. */
  function MergeHeaders(session: map<string, string>, extra: map<string, string>): (h: map<string, string>)
    ensures h.Keys == session.Keys + extra.Keys
    ensures forall k :: k in extra ==> h[k] == extra[k]
    ensures forall k :: k in session && k !in extra ==> h[k] == session[k]
  {
    session + extra
  }
}
