/** The per-identity token bucket (internal/server/ratelimit.go), over real numbers. */
module RateLimit {
  import opened Wrappers

  datatype Bucket = Bucket(tokens: real, lastRefill: real)

  /** The tokens that come in while `elapsed` seconds pass. */
  function Credit(cap: real, elapsed: real): real {
    elapsed * (cap / 60.0)
  }

  /** The tokens at `now`: credit for the elapsed time, clamped to the capacity. A missing bucket
      counts as full. */
  function Available(b: Option<Bucket>, cap: real, now: real): real {
    match b
    case None => cap
    case Some(k) =>
      var t := k.tokens + Credit(cap, now - k.lastRefill);
      if t > cap then cap else t
  }

  /** One call for one identity. The first call is not checked against the capacity. */
  function AllowOne(b: Option<Bucket>, cap: real, now: real): (bool, Bucket) {
    var t := Available(b, cap, now);
    if b.Some? && t < 1.0 then (false, Bucket(t, now)) else (true, Bucket(t - 1.0, now))
  }

  type Buckets = map<string, Bucket>

  datatype Call = Call(identity: string, now: real)

  function BucketOf(m: Buckets, identity: string): Option<Bucket> {
    if identity in m then Some(m[identity]) else None
  }

  /** The outcomes of a run of calls by any identities. */
  function Outcomes(limit: string -> int, m: Buckets, calls: seq<Call>): seq<bool>
    decreases |calls|
  {
    if calls == [] then []
    else
      var c := calls[0];
      var (ok, b) := AllowOne(BucketOf(m, c.identity), limit(c.identity) as real, c.now);
      [ok] + Outcomes(limit, m[c.identity := b], calls[1..])
  }

  /** The same for the calls of one identity alone. */
  function OutcomesOne(cap: real, b: Option<Bucket>, times: seq<real>): (r: seq<bool>)
    ensures |r| == |times|
    decreases |times|
  {
    if times == [] then []
    else
      var (ok, k) := AllowOne(b, cap, times[0]);
      [ok] + OutcomesOne(cap, Some(k), times[1..])
  }

  function TimesOf(calls: seq<Call>, identity: string): seq<real> {
    if calls == [] then []
    else (if calls[0].identity == identity then [calls[0].now] else []) + TimesOf(calls[1..], identity)
  }

  /** The outcomes at the calls of one identity. */
  function Select(calls: seq<Call>, outcomes: seq<bool>, identity: string): seq<bool>
    requires |calls| == |outcomes|
  {
    if calls == [] then []
    else (if calls[0].identity == identity then [outcomes[0]] else []) + Select(calls[1..], outcomes[1..], identity)
  }

  function Count(s: seq<bool>): nat {
    if s == [] then 0 else (if s[0] then 1 else 0) + Count(s[1..])
  }

  predicate NonDecreasing(times: seq<real>) {
    forall i, j :: 0 <= i < j < |times| ==> times[i] <= times[j]
  }

  predicate Within(b: Option<Bucket>, cap: real) {
    b.Some? ==> 0.0 <= b.value.tokens <= cap
  }

  lemma {:induction false} OutcomesLength(limit: string -> int, m: Buckets, calls: seq<Call>)
    ensures |Outcomes(limit, m, calls)| == |calls|
    decreases |calls|
  {
    if calls != [] {
      var c := calls[0];
      var (ok, b) := AllowOne(BucketOf(m, c.identity), limit(c.identity) as real, c.now);
      OutcomesLength(limit, m[c.identity := b], calls[1..]);
    }
  }

  /** What one identity gets does not depend on the calls of the others. */
  lemma {:induction false} Isolation(limit: string -> int, m: Buckets, calls: seq<Call>, identity: string)
    ensures |Outcomes(limit, m, calls)| == |calls|
    ensures Select(calls, Outcomes(limit, m, calls), identity)
         == OutcomesOne(limit(identity) as real, BucketOf(m, identity), TimesOf(calls, identity))
    decreases |calls|
  {
    OutcomesLength(limit, m, calls);
    if calls != [] {
      var c := calls[0];
      var (ok, b) := AllowOne(BucketOf(m, c.identity), limit(c.identity) as real, c.now);
      var m' := m[c.identity := b];
      Isolation(limit, m', calls[1..], identity);
      assert Outcomes(limit, m, calls)[1..] == Outcomes(limit, m', calls[1..]);
      if c.identity == identity {
        assert BucketOf(m', identity) == Some(b);
        assert TimesOf(calls, identity)[1..] == TimesOf(calls[1..], identity);
      } else {
        assert BucketOf(m', identity) == BucketOf(m, identity);
        assert TimesOf(calls, identity) == TimesOf(calls[1..], identity);
      }
    }
  }

  /** The bucket after a number of calls. */
  function After(cap: real, b: Option<Bucket>, times: seq<real>): Option<Bucket>
    decreases |times|
  {
    if times == [] then b else After(cap, Some(AllowOne(b, cap, times[0]).1), times[1..])
  }

  /** Tokens stay between zero and the capacity. */
  lemma {:induction false} AfterWithin(cap: real, b: Option<Bucket>, times: seq<real>)
    requires cap >= 1.0 && Within(b, cap) && NonDecreasing(times)
    requires b.Some? && times != [] ==> b.value.lastRefill <= times[0]
    ensures Within(After(cap, b, times), cap)
    ensures times != [] ==> After(cap, b, times) != None && After(cap, b, times).value.lastRefill == times[|times| - 1]
    decreases |times|
  {
    if times != [] {
      if b.Some? {
        CreditPositive(cap, times[0] - b.value.lastRefill);
      }
      AfterWithin(cap, Some(AllowOne(b, cap, times[0]).1), times[1..]);
    }
  }

  lemma CreditPositive(cap: real, elapsed: real)
    requires cap >= 1.0 && elapsed >= 0.0
    ensures Credit(cap, elapsed) >= 0.0
  {}

  lemma CreditSplit(cap: real, x: real, y: real)
    ensures Credit(cap, x) + Credit(cap, y) == Credit(cap, x + y)
  {
    assert (x + y) * (cap / 60.0) == x * (cap / 60.0) + y * (cap / 60.0);
  }

  function AtLeastZero(x: real): real {
    if x < 0.0 then 0.0 else x
  }

  /** The arithmetic of one step of `AllowedBound`, with the credits as plain numbers. */
  lemma BoundStep(ok: bool, t: real, left: real, n: real, next: real, c1: real, c2: real)
    requires ok ==> t >= 1.0
    requires left == if ok then t - 1.0 else t
    requires c1 >= 0.0 && next <= left + c1 && n <= AtLeastZero(next) + c2
    ensures (if ok then 1.0 else 0.0) + n <= AtLeastZero(t) + (c1 + c2)
  {}

  /** Over any stretch of calls no more are allowed than were available at its start and came in
      during it. */
  lemma {:induction false} AllowedBound(cap: real, b: Option<Bucket>, times: seq<real>)
    requires cap >= 1.0 && times != [] && NonDecreasing(times)
    ensures Count(OutcomesOne(cap, b, times)) as real
         <= AtLeastZero(Available(b, cap, times[0])) + Credit(cap, times[|times| - 1] - times[0])
    decreases |times|
  {
    var t := Available(b, cap, times[0]);
    var (ok, k) := AllowOne(b, cap, times[0]);
    var rest := times[1..];
    var outcomes := OutcomesOne(cap, b, times);
    assert outcomes[1..] == OutcomesOne(cap, Some(k), rest);
    assert Count(outcomes) == (if ok then 1 else 0) + Count(outcomes[1..]);
    if rest == [] {
      assert Credit(cap, 0.0) == 0.0;
      assert Count(outcomes[1..]) == 0;
    } else {
      AllowedBound(cap, Some(k), rest);
      var x, y := rest[0] - times[0], times[|times| - 1] - rest[0];
      assert x + y == times[|times| - 1] - times[0];
      CreditSplit(cap, x, y);
      CreditPositive(cap, x);
      BoundStep(ok, t, k.tokens, Count(outcomes[1..]) as real, Available(Some(k), cap, rest[0]), Credit(cap, x),
                Credit(cap, y));
    }
  }

  lemma {:induction false} OutcomesTake(cap: real, b: Option<Bucket>, times: seq<real>, j: nat)
    requires j <= |times|
    ensures OutcomesOne(cap, b, times)[..j] == OutcomesOne(cap, b, times[..j])
    decreases j
  {
    if j > 0 {
      var k := AllowOne(b, cap, times[0]).1;
      OutcomesTake(cap, Some(k), times[1..], j - 1);
      assert times[..j][1..] == times[1..][..j - 1];
      assert OutcomesOne(cap, b, times)[1..] == OutcomesOne(cap, Some(k), times[1..]);
    }
  }

  lemma {:induction false} OutcomesDrop(cap: real, b: Option<Bucket>, times: seq<real>, i: nat)
    requires i <= |times|
    ensures OutcomesOne(cap, b, times)[i..] == OutcomesOne(cap, After(cap, b, times[..i]), times[i..])
    decreases i
  {
    if i > 0 {
      var k := AllowOne(b, cap, times[0]).1;
      OutcomesDrop(cap, Some(k), times[1..], i - 1);
      assert times[..i][1..] == times[1..][..i - 1];
      assert times[1..][i - 1..] == times[i..];
      var rest := OutcomesOne(cap, Some(k), times[1..]);
      assert OutcomesOne(cap, b, times)[i..] == rest[i - 1..];
    } else {
      assert times[0..] == times;
    }
  }

  lemma CreditBound(cap: real, spent: real, window: real)
    requires cap >= 1.0 && spent <= window
    ensures Credit(cap, spent) <= cap * window / 60.0
  {
    CreditPositive(cap, window - spent);
    CreditSplit(cap, spent, window - spent);
    assert spent + (window - spent) == window;
    assert window * (cap / 60.0) == cap * window / 60.0;
  }

  lemma WindowOfOne(cap: real, times: seq<real>, i: nat, j: nat, window: real)
    requires cap >= 1.0 && NonDecreasing(times) && i < j <= |times| && times[j - 1] - times[i] <= window
    ensures Count(OutcomesOne(cap, None, times)[i..j]) as real <= cap + cap * window / 60.0
  {
    var b := After(cap, None, times[..i]);
    OutcomesDrop(cap, None, times, i);
    OutcomesTake(cap, b, times[i..], j - i);
    assert OutcomesOne(cap, None, times)[i..j] == OutcomesOne(cap, None, times)[i..][..j - i];
    assert times[i..j] == times[i..][..j - i];
    var part := times[i..j];
    assert part[0] == times[i] && part[|part| - 1] == times[j - 1];
    AllowedBound(cap, b, part);
    assert Available(b, cap, part[0]) <= cap;
    CreditBound(cap, times[j - 1] - times[i], window);
  }

  /** In every run with a clock that does not go back, whatever other identities do, an identity is
      allowed at most cap + cap * T / 60 of the calls that fall in any window of T seconds. */
  lemma WindowBound(limit: string -> int, calls: seq<Call>, identity: string, i: nat, j: nat, window: real)
    requires limit(identity) >= 1
    requires NonDecreasing(TimesOf(calls, identity))
    requires i < j <= |TimesOf(calls, identity)|
    requires TimesOf(calls, identity)[j - 1] - TimesOf(calls, identity)[i] <= window
    ensures |Outcomes(limit, map[], calls)| == |calls|
    ensures var cap := limit(identity) as real;
            var mine := Select(calls, Outcomes(limit, map[], calls), identity);
            && |mine| == |TimesOf(calls, identity)|
            && Count(mine[i..j]) as real <= cap + cap * window / 60.0
  {
    Isolation(limit, map[], calls, identity);
    WindowOfOne(limit(identity) as real, TimesOf(calls, identity), i, j, window);
  }

  /** An identity that has waited the time of one token is always served. */
  lemma ServedAfterWait(cap: real, b: Option<Bucket>, now: real)
    requires cap >= 1.0 && Within(b, cap)
    requires b.Some? ==> now - b.value.lastRefill >= 60.0 / cap
    ensures AllowOne(b, cap, now).0
  {
    if b.Some? {
      var elapsed := now - b.value.lastRefill;
      assert Credit(cap, 60.0 / cap) == 1.0;
      CreditPositive(cap, elapsed - 60.0 / cap);
      CreditSplit(cap, 60.0 / cap, elapsed - 60.0 / cap);
      assert 60.0 / cap + (elapsed - 60.0 / cap) == elapsed;
    }
  }

  class RateLimiter {
    const limit: string -> int
    var buckets: Buckets

    constructor (limit: string -> int)
      ensures buckets == map[] && this.limit == limit
    {
      this.limit, buckets := limit, map[];
    }

    /** `allow`; the clock is a parameter. */
    method Allow(identity: string, now: real) returns (ok: bool)
      modifies this
      ensures var (allowed, b) := AllowOne(BucketOf(old(buckets), identity), limit(identity) as real, now);
              ok == allowed && buckets == old(buckets)[identity := b]
    {
      var cap := limit(identity) as real;
      var refillPerSec := cap / 60.0;
      if identity !in buckets {
        buckets := buckets[identity := Bucket(cap - 1.0, now)];
        return true;
      }
      var b := buckets[identity];
      var elapsed := now - b.lastRefill;
      var tokens := b.tokens + elapsed * refillPerSec;
      if tokens > cap {
        tokens := cap;
      }
      if tokens < 1.0 {
        buckets := buckets[identity := Bucket(tokens, now)];
        return false;
      }
      buckets := buckets[identity := Bucket(tokens - 1.0, now)];
      return true;
    }
  }
}
