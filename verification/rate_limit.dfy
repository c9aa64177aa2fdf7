/** Fixed-window rate limiting per API key. The process-wide bucket table is
    explicit state, and the clock reading is a parameter: a whole number of
    milliseconds since the epoch. */
module RateLimit {

  /** At most `limit` requests per `windowSeconds`. */
  datatype Config = Config(limit: nat, windowSeconds: nat)

  const FREE_LIMIT: Config := Config(60, 60)
  const PRO_LIMIT: Config := Config(300, 60)

  const MS_PER_SECOND: nat := 1000

  /** The plan name that selects the larger limit. */
  const PRO_PLAN: string := "pro"

  /** Limits for a plan: "pro" gets the pro limits, every other plan the free ones. */
  function ConfigFor(plan: string): (c: Config)
    ensures c.windowSeconds == 60 && c.limit > 0
    ensures c.limit == 300 <==> plan == PRO_PLAN
    ensures c.limit == 60 <==> plan != PRO_PLAN
  {
    if plan == PRO_PLAN then PRO_LIMIT else FREE_LIMIT
  }

  /** Start of the current window (milliseconds) and requests counted in it. */
  datatype Bucket = Bucket(start: int, count: nat)

  type Buckets = map<string, Bucket>

  /** The outcome of one request: let through, or refused with the number of
      whole seconds the client is told to wait. */
  datatype Verdict = Allowed | Limited(retryAfter: nat)

  datatype Step = Step(buckets: Buckets, verdict: Verdict)

  /** Python's `int()` on a quotient: division truncated toward zero. */
  function TruncDiv(x: int, d: nat): (q: int)
    requires d > 0
    ensures x >= 0 ==> q >= 0 && q * d <= x < q * d + d
    ensures x < 0 ==> q <= 0 && q * d >= x > q * d - d
  {
    if x >= 0 then x / d else -((-x) / d)
  }

  /** Whether the window that opened at `start` is over at `now`. */
  predicate Expired(start: int, now: int, cfg: Config) {
    now - start >= cfg.windowSeconds * MS_PER_SECOND
  }

  /** Milliseconds left in the window that opened at `start`; negative once
      it is over. */
  function Remaining(start: int, now: int, cfg: Config): int {
    cfg.windowSeconds * MS_PER_SECOND - (now - start)
  }

  /** Seconds left in the window, as announced to a refused client: the
      remaining time truncated toward zero, and never negative. */
  function RetryAfter(start: int, now: int, cfg: Config): (s: nat)
    ensures now >= start ==> s <= cfg.windowSeconds
    ensures !Expired(start, now, cfg) && now >= start ==> s * MS_PER_SECOND <= cfg.windowSeconds * MS_PER_SECOND - (now - start)
    ensures Remaining(start, now, cfg) < MS_PER_SECOND ==> s == 0
    ensures Remaining(start, now, cfg) >= 0 ==>
      s * MS_PER_SECOND <= Remaining(start, now, cfg) < (s + 1) * MS_PER_SECOND
  {
    var secs := TruncDiv(cfg.windowSeconds * MS_PER_SECOND - (now - start), MS_PER_SECOND);
    if secs < 0 then 0 else secs
  }

  /** One request from `key` on `plan` at time `now`. A key seen for the first
      time, or whose window is over, opens a new window at `now`; the request
      is then counted, and the updated bucket is stored before the limit is
      checked, so refused requests count too. */
  function Enforce(buckets: Buckets, key: string, plan: string, now: int): (r: Step)
    ensures key in r.buckets && r.buckets.Keys == buckets.Keys + {key}
    ensures forall k :: k in buckets && k != key ==> r.buckets[k] == buckets[k]
    ensures key !in buckets || Expired(buckets[key].start, now, ConfigFor(plan)) ==> r.buckets[key] == Bucket(now, 1)
    ensures key in buckets && !Expired(buckets[key].start, now, ConfigFor(plan)) ==>
      r.buckets[key] == Bucket(buckets[key].start, buckets[key].count + 1)
    ensures r.verdict.Limited? <==> r.buckets[key].count > ConfigFor(plan).limit
    ensures r.verdict.Limited? && now >= r.buckets[key].start ==> r.verdict.retryAfter <= ConfigFor(plan).windowSeconds
    ensures r.verdict.Limited? ==> r.verdict.retryAfter == RetryAfter(r.buckets[key].start, now, ConfigFor(plan))
  {
    var cfg := ConfigFor(plan);
    var b := if key in buckets then buckets[key] else Bucket(now, 0);
    var b := if Expired(b.start, now, cfg) then Bucket(now, 0) else b;
    var b := Bucket(b.start, b.count + 1);
    var stored := buckets[key := b];
    if b.count > cfg.limit then Step(stored, Limited(RetryAfter(b.start, now, cfg)))
    else Step(stored, Allowed)
  }

  /** A fresh key's first request is always let through. */
  lemma FirstRequestAllowed(buckets: Buckets, key: string, plan: string, now: int)
    requires key !in buckets
    ensures Enforce(buckets, key, plan, now).verdict == Allowed
  {
  }

  /** Waiting one second more than a refused client is told always reaches
      a new window, so the next request there is let through. */
  lemma RetryAfterReopens(buckets: Buckets, key: string, plan: string, now: int)
    requires Enforce(buckets, key, plan, now).verdict.Limited?
    ensures var r := Enforce(buckets, key, plan, now);
      var later := now + (r.verdict.retryAfter + 1) * MS_PER_SECOND;
      && Expired(r.buckets[key].start, later, ConfigFor(plan))
      && Enforce(r.buckets, key, plan, later).verdict == Allowed
  {
  }

  // ---------------------------------------------------------------------------
  // Runs of requests

  /** Feed the requests of one key at the given times through `Enforce`, in
      order; the final table and how many were let through. */
  function Run(buckets: Buckets, key: string, plan: string, times: seq<int>): (r: (Buckets, nat))
    ensures r.1 <= |times|
    decreases |times|
  {
    if |times| == 0 then (buckets, 0)
    else
      var step := Enforce(buckets, key, plan, times[0]);
      var rest := Run(step.buckets, key, plan, times[1..]);
      (rest.0, rest.1 + (if step.verdict == Allowed then 1 else 0))
  }

  /** `x` clamped to `0..n`. */
  function Clamp(x: int, n: nat): (c: nat)
    ensures c <= n
  {
    if x <= 0 then 0 else if x >= n then n else x
  }

  /** Inside an open window that already counted `c` requests, a run of
      requests all inside the window lets through exactly the ones that keep
      the count within the limit, and every one of them is counted. */
  lemma {:induction false} RunInsideWindow(buckets: Buckets, key: string, plan: string, times: seq<int>)
    requires key in buckets
    requires forall i :: 0 <= i < |times| ==>
      buckets[key].start <= times[i] < buckets[key].start + ConfigFor(plan).windowSeconds * MS_PER_SECOND
    ensures Run(buckets, key, plan, times).1 == Clamp(ConfigFor(plan).limit - buckets[key].count, |times|)
    ensures key in Run(buckets, key, plan, times).0
    ensures Run(buckets, key, plan, times).0[key] == Bucket(buckets[key].start, buckets[key].count + |times|)
    decreases |times|
  {
    if |times| > 0 {
      var step := Enforce(buckets, key, plan, times[0]);
      assert step.buckets[key] == Bucket(buckets[key].start, buckets[key].count + 1);
      forall i | 0 <= i < |times[1..]|
        ensures step.buckets[key].start <= times[1..][i] < step.buckets[key].start + ConfigFor(plan).windowSeconds * MS_PER_SECOND
      {
        assert times[1..][i] == times[i + 1];
      }
      RunInsideWindow(step.buckets, key, plan, times[1..]);
    }
  }

  /** Within one window opened by the first request of a run, exactly
      min(run length, limit) requests are let through: never more than the
      limit, and none refused before the limit is reached. */
  lemma OneWindowAdmitsAtMostLimit(buckets: Buckets, key: string, plan: string, times: seq<int>)
    requires |times| > 0
    requires key !in buckets || Expired(buckets[key].start, times[0], ConfigFor(plan))
    requires forall i :: 0 <= i < |times| ==> times[0] <= times[i] < times[0] + ConfigFor(plan).windowSeconds * MS_PER_SECOND
    ensures Run(buckets, key, plan, times).1 == if |times| < ConfigFor(plan).limit then |times| else ConfigFor(plan).limit
    ensures Run(buckets, key, plan, times).1 <= ConfigFor(plan).limit
  {
    var step := Enforce(buckets, key, plan, times[0]);
    assert step.buckets[key] == Bucket(times[0], 1);
    forall i | 0 <= i < |times[1..]|
      ensures times[0] <= times[1..][i] < times[0] + ConfigFor(plan).windowSeconds * MS_PER_SECOND
    {
      assert times[1..][i] == times[i + 1];
    }
    RunInsideWindow(step.buckets, key, plan, times[1..]);
  }
}
