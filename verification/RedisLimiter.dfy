/** The Redis limiter (`check_rate_limit_redis` in `core/auth_oidc.py`) and the gate of the MCP router, which falls
    back to the in-memory limiter on any exception, a refusal by Redis included (`mcp/router.py`). */
module RedisLimiter {
  import opened Wrappers
  import opened Sequences
  import opened SlidingWindow
  import opened MemoryLimiters

  /** What goes wrong with one call: nothing, or Redis fails before or after the pipeline is applied. */
  datatype Fault = NoFault | FailsBefore | FailsAfter

  datatype Hit = Hit(client: string, now: int, fault: Fault)

  /** `zremrangebyscore(key, 0, window_start)`. */
  function Evicted(times: set<int>, windowStart: int): set<int> {
    set t | t in times && !(0 <= t <= windowStart)
  }

  /** The members of a client's sorted set. A member is named by its timestamp, so equal timestamps collapse; a
      refused request is added like any other. */
  function Members(log: seq<Hit>, client: string): set<int> {
    if log == [] then {}
    else
      var n := |log| - 1;
      var before := Members(log[..n], client);
      if log[n].client == client && log[n].fault != FailsBefore
      then Evicted(before, log[n].now - WINDOW) + {log[n].now}
      else before
  }

  lemma {:induction false} MembersNext(log: seq<Hit>, h: Hit, client: string)
    ensures Members(log + [h], client)
         == if h.client == client && h.fault != FailsBefore
            then Evicted(Members(log, client), h.now - WINDOW) + {h.now} else Members(log, client)
  {
    assert (log + [h])[..|log|] == log;
  }

  predicate RedisAdmits(before: set<int>, h: Hit, rpm: nat) {
    h.fault == NoFault && |Evicted(before, h.now - WINDOW)| < rpm
  }

  /** The times of the requests of a client that Redis admitted. */
  function ByRedis(log: seq<Hit>, client: string, rpm: nat): seq<int> {
    if log == [] then []
    else
      var n := |log| - 1;
      ByRedis(log[..n], client, rpm)
        + if log[n].client == client && RedisAdmits(Members(log[..n], client), log[n], rpm) then [log[n].now] else []
  }

  /** The requests that reach the in-memory limiter. */
  function FallenThrough(log: seq<Hit>, rpm: nat): seq<Request> {
    if log == [] then []
    else
      var n := |log| - 1;
      FallenThrough(log[..n], rpm)
        + if RedisAdmits(Members(log[..n], log[n].client), log[n], rpm) then []
          else [Request(log[n].client, log[n].now, Some(rpm))]
  }

  datatype Outcome = Admitted | TooManyRequests | Unavailable

  /* ----- The expiry of idle keys ----- */

  ghost predicate ClockRuns(log: seq<Hit>) {
    && (forall i :: 0 <= i < |log| ==> 0 <= log[i].now)
    && (forall i, j :: 0 <= i < j < |log| ==> log[i].now <= log[j].now)
  }

  lemma ClockRan(log: seq<Hit>, h: Hit)
    requires ClockRuns(log + [h])
    ensures ClockRuns(log) && forall i :: 0 <= i < |log| ==> 0 <= log[i].now <= h.now
  {
    var all := log + [h];
    assert all[|log|] == h;
    forall i | 0 <= i < |log| ensures all[i] == log[i] && 0 <= log[i].now <= h.now { assert all[i].now <= all[|log|].now; }
    forall i, j | 0 <= i < j < |log| ensures log[i].now <= log[j].now { assert all[i].now <= all[j].now; }
  }

  /** When the pipeline last touched a client's key. */
  function LastTouch(log: seq<Hit>, client: string): Option<int> {
    if log == [] then None
    else
      var n := |log| - 1;
      if log[n].client == client && log[n].fault != FailsBefore then Some(log[n].now) else LastTouch(log[..n], client)
  }

  /** What the key holds at `now`: nothing once it has been idle for 120 seconds. */
  function Held(times: set<int>, touched: Option<int>, now: int): set<int> {
    if touched.Some? && now >= touched.value + 2 * WINDOW then {} else times
  }

  /** The sorted set of a client when keys expire. */
  function Expiring(log: seq<Hit>, client: string): set<int> {
    if log == [] then {}
    else
      var n := |log| - 1;
      var before := Expiring(log[..n], client);
      if log[n].client == client && log[n].fault != FailsBefore
      then Evicted(Held(before, LastTouch(log[..n], client), log[n].now), log[n].now - WINDOW) + {log[n].now}
      else before
  }

  ghost predicate TouchedSince(times: set<int>, touched: Option<int>) {
    forall t :: t in times ==> touched.Some? && 0 <= t <= touched.value
  }

  lemma TouchAgain(times: set<int>, touched: Option<int>, now: int, cutoff: int)
    requires TouchedSince(times, touched) && 0 <= now && (touched.Some? ==> touched.value <= now)
    ensures TouchedSince(Evicted(times, cutoff) + {now}, Some(now))
  {
  }

  lemma {:induction false} TouchIsPast(log: seq<Hit>, client: string, now: int)
    requires forall i :: 0 <= i < |log| ==> log[i].now <= now
    ensures LastTouch(log, client).Some? ==> LastTouch(log, client).value <= now
  {
    if log != [] {
      TouchIsPast(log[..|log| - 1], client, now);
    }
  }

  lemma {:induction false} MembersAreOld(log: seq<Hit>, client: string)
    requires ClockRuns(log)
    ensures TouchedSince(Members(log, client), LastTouch(log, client))
    decreases |log|
  {
    hide Members, LastTouch, ClockRuns, Evicted, TouchedSince;
    if log != [] {
      var n := |log| - 1;
      var init, h := log[..n], log[n];
      assert log == init + [h];
      ClockRan(init, h);
      ClockStarts(init, h);
      MembersAreOld(init, client);
      MembersNext(init, h, client);
      LastTouchNext(init, h, client);
      TouchIsPast(init, client, h.now);
      TouchAgain(Members(init, client), LastTouch(init, client), h.now, h.now - WINDOW);
    } else {
      NothingTouched(client);
    }
  }

  lemma ClockStarts(log: seq<Hit>, h: Hit)
    requires ClockRuns(log + [h])
    ensures h.now >= 0
  {
    assert (log + [h])[|log|] == h;
  }

  lemma {:induction false} NothingTouched(client: string)
    ensures TouchedSince(Members([], client), LastTouch([], client))
  {
  }

  /** At any time on, what an expired key would still hold is evicted anyway. */
  lemma {:induction false} HeldIsEvicted(log: seq<Hit>, client: string, now: int)
    requires ClockRuns(log)
    ensures Evicted(Held(Members(log, client), LastTouch(log, client), now), now - WINDOW)
         == Evicted(Members(log, client), now - WINDOW)
  {
    hide Members, LastTouch, ClockRuns;
    MembersAreOld(log, client);
  }

  /** In every run with any faults, the expiry of idle keys changes neither what the sets hold after a call nor, by
      `HeldIsEvicted`, what any call counts. */
  lemma {:induction false} ExpiryForgetsNothing(log: seq<Hit>, client: string)
    requires ClockRuns(log)
    ensures Expiring(log, client) == Members(log, client)
    decreases |log|
  {
    if log != [] {
      hide Evicted, Held, LastTouch, ClockRuns;
      var n := |log| - 1;
      assert log == log[..n] + [log[n]];
      ClockRan(log[..n], log[n]);
      ExpiryForgetsNothing(log[..n], client);
      HeldIsEvicted(log[..n], client, log[n].now);
    }
  }

  lemma {:induction false} LastTouchNext(log: seq<Hit>, h: Hit, client: string)
    ensures LastTouch(log + [h], client)
         == if h.client == client && h.fault != FailsBefore then Some(h.now) else LastTouch(log, client)
  {
    assert (log + [h])[..|log|] == log;
  }

  function SetOf(sets: map<string, set<int>>, client: string): set<int> {
    if client in sets then sets[client] else {}
  }

  function TouchOf(touched: map<string, int>, client: string): Option<int> {
    if client in touched then Some(touched[client]) else None
  }

  /** The store holds the members of every client, and when each key was last touched. */
  ghost predicate Mirrors(sets: map<string, set<int>>, touched: map<string, int>, log: seq<Hit>) {
    forall c :: SetOf(sets, c) == Members(log, c) && TouchOf(touched, c) == LastTouch(log, c)
  }

  lemma {:induction false} MirrorsHit(sets: map<string, set<int>>, touched: map<string, int>, log: seq<Hit>, h: Hit)
    requires Mirrors(sets, touched, log) && ClockRuns(log)
    ensures var evicted := Evicted(Held(SetOf(sets, h.client), TouchOf(touched, h.client), h.now), h.now - WINDOW);
            && evicted == Evicted(Members(log, h.client), h.now - WINDOW)
            && if h.fault == FailsBefore then Mirrors(sets, touched, log + [h])
               else Mirrors(sets[h.client := evicted + {h.now}], touched[h.client := h.now], log + [h])
  {
    hide Members, Evicted, LastTouch, ClockRuns, Held;
    HeldIsEvicted(log, h.client, h.now);
    forall c
      ensures Members(log + [h], c)
           == if c == h.client && h.fault != FailsBefore
              then Evicted(Members(log, c), h.now - WINDOW) + {h.now} else Members(log, c)
      ensures LastTouch(log + [h], c) == if c == h.client && h.fault != FailsBefore then Some(h.now) else LastTouch(log, c)
    {
      MembersNext(log, h, c);
      LastTouchNext(log, h, c);
    }
  }

  /* ----- The decision, in terms of the requests themselves ----- */

  /** Requests that reached Redis and are still in the window are members. */
  lemma {:induction false} MembersKeepWindow(log: seq<Hit>, client: string, i: nat)
    requires ClockRuns(log) && i < |log|
    requires log[i].client == client && log[i].fault != FailsBefore && log[i].now > log[|log| - 1].now - WINDOW
    ensures log[i].now in Members(log, client)
    decreases |log|
  {
    var n := |log| - 1;
    if i < n {
      assert log[..n][n - 1].now <= log[n].now;
      MembersKeepWindow(log[..n], client, i);
    }
  }

  /** The distinct instants after `cutoff` of the requests of a client that reached Redis. */
  function InstantsAfter(log: seq<Hit>, client: string, cutoff: int): set<int> {
    set i | 0 <= i < |log| && log[i].client == client && log[i].fault != FailsBefore && log[i].now > cutoff :: log[i].now
  }

  lemma {:induction false} MembersWereHits(log: seq<Hit>, client: string, t: int)
    requires t in Members(log, client)
    ensures exists i :: 0 <= i < |log| && log[i].client == client && log[i].fault != FailsBefore && log[i].now == t
    decreases |log|
  {
    var n := |log| - 1;
    if t in Members(log[..n], client) {
      MembersWereHits(log[..n], client, t);
      var i :| 0 <= i < n && log[..n][i].client == client && log[..n][i].fault != FailsBefore && log[..n][i].now == t;
      assert log[i] == log[..n][i];
    } else {
      assert log[n].now == t;
    }
  }

  /** What is left of a sorted set once the outdated part is evicted. */
  lemma {:induction false} EvictedExact(log: seq<Hit>, client: string, now: int)
    requires ClockRuns(log) && forall i :: 0 <= i < |log| ==> log[i].now <= now
    ensures Evicted(Members(log, client), now - WINDOW) == InstantsAfter(log, client, now - 60_000_000)
  {
    hide Members;
    var cutoff := now - WINDOW;
    forall t ensures t in Evicted(Members(log, client), cutoff) <==> t in InstantsAfter(log, client, cutoff) {
      if t in Evicted(Members(log, client), cutoff) {
        MembersWereHits(log, client, t);
        var i :| 0 <= i < |log| && log[i].client == client && log[i].fault != FailsBefore && log[i].now == t;
        assert log[i].now in InstantsAfter(log, client, cutoff);
      }
      if t in InstantsAfter(log, client, cutoff) {
        var i :| 0 <= i < |log| && log[i].client == client && log[i].fault != FailsBefore && log[i].now > cutoff && log[i].now == t;
        MembersKeepWindow(log, client, i);
      }
    }
  }

  /** A call is admitted if and only if it does not fail and fewer than `rpm` distinct instants of requests that reached
      Redis, refused ones included, lie in the 60 seconds before it. */
  lemma {:induction false} RedisDecisionExact(log: seq<Hit>, h: Hit, rpm: nat)
    requires ClockRuns(log + [h])
    ensures RedisAdmits(Members(log, h.client), h, rpm)
       <==> h.fault == NoFault && |InstantsAfter(log, h.client, h.now - 60_000_000)| < rpm
  {
    hide Members, InstantsAfter, Evicted, ClockRuns;
    ClockRan(log, h);
    EvictedExact(log, h.client, h.now);
  }

  class RedisStore {
    const rpm: nat
    var sets: map<string, set<int>>
    var touched: map<string, int>
    ghost var log: seq<Hit>

    constructor (rpm: nat)
      ensures Valid() && log == [] && this.rpm == rpm
    {
      this.rpm := rpm;
      sets, touched := map[], map[];
      log := [];
    }

    ghost predicate Valid()
      reads this
    {
      ClockRuns(log) && Mirrors(sets, touched, log)
    }

    /** One call. Keys expire, but it decides as if they never did. */
    method CheckRateLimit(client: string, now: int, fault: Fault) returns (outcome: Outcome)
      requires Valid() && ClockRuns(log + [Hit(client, now, fault)])
      modifies this
      ensures Valid() && log == old(log) + [Hit(client, now, fault)]
      ensures outcome == Unavailable <==> fault != NoFault
      ensures outcome == Admitted <==> RedisAdmits(Members(old(log), client), Hit(client, now, fault), rpm)
      ensures outcome == Admitted <==> fault == NoFault && |InstantsAfter(old(log), client, now - 60_000_000)| < rpm
    {
      hide Members, Evicted, LastTouch, ClockRuns, Held, Mirrors, InstantsAfter;
      ghost var h := Hit(client, now, fault);
      RedisDecisionExact(log, h, rpm);
      var held := Held(SetOf(sets, client), TouchOf(touched, client), now);
      var evicted := Evicted(held, now - WINDOW);
      MirrorsHit(sets, touched, log, h);
      log := log + [h];
      if fault == FailsBefore {
        return Unavailable;
      }
      var countBefore := |evicted|;
      sets := sets[client := evicted + {now}];
      touched := touched[client := now];
      if fault == FailsAfter {
        return Unavailable;
      }
      outcome := if countBefore >= rpm then TooManyRequests else Admitted;
    }
  }

  /** The two-stage gate. */
  method Gate(redis: RedisStore, memory: DequeLimiter, client: string, now: int, fault: Fault) returns (admitted: bool)
    requires redis.Valid() && memory.Valid() && memory.rpm == redis.rpm
    requires memory.log == FallenThrough(redis.log, redis.rpm)
    requires ClockRuns(redis.log + [Hit(client, now, fault)]) && NotBefore(memory.log, now)
    modifies redis, memory
    ensures redis.Valid() && memory.Valid()
    ensures redis.log == old(redis.log) + [Hit(client, now, fault)]
    ensures memory.log == FallenThrough(redis.log, redis.rpm)
    ensures admitted <==>
              || RedisAdmits(Members(old(redis.log), client), Hit(client, now, fault), redis.rpm)
              || Admits(Recorded(old(memory.log), client), Request(client, now, Some(redis.rpm)))
    ensures var byRedis := fault == NoFault && |InstantsAfter(old(redis.log), client, now - 60_000_000)| < redis.rpm;
            && memory.log == old(memory.log) + (if byRedis then [] else [Request(client, now, Some(redis.rpm))])
            && (admitted <==> byRedis || |AdmittedAfter(old(memory.log), client, now - 60_000_000)| < redis.rpm)
  {
    hide Members, RedisAdmits, Recorded, Admits, ClockRuns, InstantsAfter, AdmittedAfter;
    RedisDecisionExact(redis.log, Hit(client, now, fault), redis.rpm);
    AdmissionExact(memory.log, Request(client, now, Some(redis.rpm)));
    ghost var before := redis.log;
    assert (before + [Hit(client, now, fault)])[..|before|] == before;
    var outcome := redis.CheckRateLimit(client, now, fault);
    if outcome == Admitted {
      admitted := true;
    } else {
      admitted := memory.CheckRateLimit(client, now);
    }
  }

  /* ----- What the sorted set keeps ----- */

  /** No two requests of a client carry the same timestamp. */
  ghost predicate DistinctTimes(log: seq<Hit>, client: string) {
    forall i, j :: 0 <= i < j < |log| && log[i].client == log[j].client == client ==> log[i].now < log[j].now
  }

  lemma {:induction false} ByRedisWereHits(log: seq<Hit>, client: string, rpm: nat, t: int)
    requires t in ByRedis(log, client, rpm)
    ensures exists i :: 0 <= i < |log| && log[i].client == client && log[i].fault == NoFault && log[i].now == t
    decreases |log|
  {
    var n := |log| - 1;
    if t in ByRedis(log[..n], client, rpm) {
      ByRedisWereHits(log[..n], client, rpm, t);
      var i :| 0 <= i < n && log[..n][i].client == client && log[..n][i].fault == NoFault && log[..n][i].now == t;
      assert log[i] == log[..n][i];
    } else {
      assert log[n].now == t;
    }
  }

  /** The admitted times after the cutoff of the next request are members that its eviction leaves. */
  lemma {:induction false} AdmittedStay(log: seq<Hit>, client: string, rpm: nat, h: Hit, t: int)
    requires ClockRuns(log + [h])
    requires t in ByRedis(log, client, rpm) && t > h.now - WINDOW
    ensures t in Evicted(Members(log, client), h.now - WINDOW)
  {
    hide Members, ByRedis, ClockRuns;
    ByRedisWereHits(log, client, rpm, t);
    var i :| 0 <= i < |log| && log[i].client == client && log[i].fault == NoFault && log[i].now == t;
    ClockRan(log, h);
    MembersKeepWindow(log, client, i);
  }

  /** The instants in `(s, s + WINDOW]` at which Redis admitted some request of the client. */
  ghost function Instants(ts: seq<int>, s: int): set<int> {
    set t | t in ts && s < t <= s + WINDOW
  }

  lemma SubsetSize(a: set<int>, b: set<int>)
    requires a <= b
    ensures |a| <= |b|
  {
    assert b == a + (b - a);
  }

  lemma {:induction false} ByRedisNext(log: seq<Hit>, h: Hit, client: string, rpm: nat)
    ensures ByRedis(log + [h], client, rpm)
         == ByRedis(log, client, rpm)
            + if h.client == client && RedisAdmits(Members(log, client), h, rpm) then [h.now] else []
  {
    assert (log + [h])[..|log|] == log;
  }

  /** In every run, with any faults, each window of 60 seconds holds at most `rpm` instants at which Redis admitted
      a request of the client. */
  lemma {:induction false} InstantsBound(log: seq<Hit>, client: string, rpm: nat, s: int)
    requires ClockRuns(log)
    ensures |Instants(ByRedis(log, client, rpm), s)| <= rpm
    decreases |log|
  {
    hide Members, ByRedis, Instants, ClockRuns, Evicted;
    if log != [] {
      var n := |log| - 1;
      var init, h := log[..n], log[n];
      assert log == init + [h];
      ClockRan(init, h);
      InstantsBound(init, client, rpm, s);
      ByRedisNext(init, h, client, rpm);
      var before := ByRedis(init, client, rpm);
      InstantsAppend(before, h.now, s);
      if h.client == client && RedisAdmits(Members(init, client), h, rpm) && s < h.now <= s + WINDOW {
        InstantsStay(init, h, client, rpm, s);
      }
      assert before + [] == before;
    } else {
      NoInstants(client, rpm, s);
    }
  }

  lemma {:induction false} NoInstants(client: string, rpm: nat, s: int)
    ensures Instants(ByRedis([], client, rpm), s) == {}
  {
  }

  lemma InstantsAppend(ts: seq<int>, t: int, s: int)
    ensures Instants(ts + [t], s) == if s < t <= s + WINDOW then Instants(ts, s) + {t} else Instants(ts, s)
  {
  }

  lemma {:induction false} InstantsStay(log: seq<Hit>, h: Hit, client: string, rpm: nat, s: int)
    requires ClockRuns(log + [h]) && s < h.now <= s + WINDOW
    ensures |Instants(ByRedis(log, client, rpm), s)| <= |Evicted(Members(log, client), h.now - WINDOW)|
  {
    hide Members, ByRedis, ClockRuns;
    var a, left := Instants(ByRedis(log, client, rpm), s), Evicted(Members(log, client), h.now - WINDOW);
    forall t | t in a ensures t in left {
      AdmittedStay(log, client, rpm, h, t);
    }
    SubsetSize(a, left);
  }

  lemma IncreasingLast(ts: seq<int>, t: int, s: int)
    requires Increasing(ts + [t])
    ensures Increasing(ts) && t !in Instants(ts, s)
  {
    var all := ts + [t];
    assert all[|ts|] == t;
    forall i | 0 <= i < |ts| ensures ts[i] < t { assert all[i] == ts[i]; }
    forall i, j | 0 <= i < j < |ts| ensures ts[i] < ts[j] { assert all[i] == ts[i] && all[j] == ts[j]; }
  }

  lemma {:induction false} NoneYet(s: int)
    ensures CountInWindow([], s) == |Instants([], s)| == 0
  {
    assert Instants([], s) == {};
  }

  /** Without repetition, counting requests is counting instants. */
  lemma {:induction false} CountIsInstants(ts: seq<int>, s: int)
    requires Increasing(ts)
    ensures CountInWindow(ts, s) == |Instants(ts, s)|
  {
    hide Instants, CountInWindow, Increasing;
    if ts != [] {
      var n := |ts| - 1;
      var init, t := ts[..n], ts[n];
      assert ts == init + [t];
      IncreasingLast(init, t, s);
      CountIsInstants(init, s);
      CountNext(init, t, s);
      InstantsAppend(init, t, s);
    } else {
      NoneYet(s);
    }
  }

  lemma {:induction false} ByRedisIncreases(log: seq<Hit>, client: string, rpm: nat)
    requires DistinctTimes(log, client)
    ensures Increasing(ByRedis(log, client, rpm))
    decreases |log|
  {
    if log != [] {
      var n := |log| - 1;
      ByRedisIncreases(log[..n], client, rpm);
      var before := ByRedis(log[..n], client, rpm);
      if log[n].client == client {
        forall i | 0 <= i < |before| ensures before[i] < log[n].now {
          ByRedisWereHits(log[..n], client, rpm, before[i]);
          var j :| 0 <= j < n && log[..n][j].client == client && log[..n][j].fault == NoFault && log[..n][j].now == before[i];
          assert log[j] == log[..n][j];
        }
      }
    }
  }

  /** With distinct timestamps, no window holds more than `rpm` requests of a client that Redis admitted. */
  lemma {:induction false} RedisWindowBound(log: seq<Hit>, client: string, rpm: nat, s: int)
    requires ClockRuns(log) && DistinctTimes(log, client)
    ensures CountInWindow(ByRedis(log, client, rpm), s) <= rpm
  {
    InstantsBound(log, client, rpm, s);
    ByRedisIncreases(log, client, rpm);
    CountIsInstants(ByRedis(log, client, rpm), s);
  }

  /* ----- Equal timestamps ----- */

  function Burst(n: nat, client: string, now: int): seq<Hit> {
    seq(n, i => Hit(client, now, NoFault))
  }

  lemma BurstNext(n: nat, client: string, now: int)
    requires n > 0
    ensures Burst(n, client, now) == Burst(n - 1, client, now) + [Hit(client, now, NoFault)]
  {
  }

  lemma EvictedWithin(times: set<int>, windowStart: int)
    ensures Evicted(times, windowStart) <= times
  {
  }

  /** Any number of requests in one instant is admitted once the limit is two or more. */
  lemma {:induction false} BurstAdmitted(n: nat, client: string, now: int, rpm: nat)
    requires rpm >= 2 && now >= 0
    ensures Members(Burst(n, client, now), client) <= {now}
    ensures CountInWindow(ByRedis(Burst(n, client, now), client, rpm), now - 1) == n
  {
    hide Members, ByRedis, CountInWindow, Burst;
    if n > 0 {
      BurstAdmitted(n - 1, client, now, rpm);
      var init := Burst(n - 1, client, now);
      BurstNext(n, client, now);
      BurstStep(init, client, now, rpm);
      CountNext(ByRedis(init, client, rpm), now, now - 1);
    } else {
      NoBurst(client, now, rpm);
    }
  }

  lemma {:induction false} NoBurst(client: string, now: int, rpm: nat)
    ensures Members(Burst(0, client, now), client) == {}
    ensures CountInWindow(ByRedis(Burst(0, client, now), client, rpm), now - 1) == 0
  {
    assert Burst(0, client, now) == [];
  }

  lemma {:induction false} BurstStep(log: seq<Hit>, client: string, now: int, rpm: nat)
    requires rpm >= 2 && Members(log, client) <= {now}
    ensures Members(log + [Hit(client, now, NoFault)], client) <= {now}
    ensures ByRedis(log + [Hit(client, now, NoFault)], client, rpm) == ByRedis(log, client, rpm) + [now]
  {
    hide Members, ByRedis, Evicted;
    var h := Hit(client, now, NoFault);
    EvictedWithin(Members(log, client), now - WINDOW);
    SubsetSize(Evicted(Members(log, client), now - WINDOW), {now});
    MembersNext(log, h, client);
    ByRedisNext(log, h, client, rpm);
  }

  /** The promised bound, for every run, client and window. */
  ghost predicate RedisIsBounded(rpm: nat) {
    forall log: seq<Hit>, client, s :: ClockRuns(log) ==> CountInWindow(ByRedis(log, client, rpm), s) <= rpm
  }

  lemma {:induction false} SmallLimitBound(log: seq<Hit>, client: string, rpm: nat, s: int)
    requires ClockRuns(log) && rpm <= 1
    ensures CountInWindow(ByRedis(log, client, rpm), s) <= rpm
    decreases |log|
  {
    hide Members, ByRedis, RedisAdmits, CountInWindow;
    if log != [] {
      var n := |log| - 1;
      var init, h := log[..n], log[n];
      SmallLimitBound(init, client, rpm, s);
      ByRedisNext(init, h, client, rpm);
      assert log == init + [h];
      var before := ByRedis(init, client, rpm);
      CountNext(before, h.now, s);
      assert before + [] == before;
      if RedisAdmits(Members(init, client), h, rpm) && s < h.now <= s + WINDOW {
        FirstInWindow(init, h, client, rpm, s);
      }
    } else {
      assert ByRedis([], client, rpm) == [] by { NoHits(client, rpm); }
      NoneInWindow([], s);
    }
  }

  lemma {:induction false} NoHits(client: string, rpm: nat)
    ensures ByRedis([], client, rpm) == []
  {
  }

  lemma {:induction false} CountNext(ts: seq<int>, t: int, s: int)
    ensures CountInWindow(ts + [t], s) == CountInWindow(ts, s) + if s < t <= s + WINDOW then 1 else 0
  {
    assert (ts + [t])[..|ts|] == ts;
  }

  lemma {:induction false} NoneInWindow(ts: seq<int>, s: int)
    requires forall i :: 0 <= i < |ts| ==> !(s < ts[i] <= s + WINDOW)
    ensures CountInWindow(ts, s) == 0
  {
    if ts != [] {
      NoneInWindow(ts[..|ts| - 1], s);
    }
  }

  /** With a limit of one, a request is admitted only if none was admitted in its window before. */
  lemma {:induction false} FirstInWindow(log: seq<Hit>, h: Hit, client: string, rpm: nat, s: int)
    requires ClockRuns(log + [h]) && rpm <= 1 && RedisAdmits(Members(log, client), h, rpm)
    requires s < h.now <= s + WINDOW
    ensures CountInWindow(ByRedis(log, client, rpm), s) == 0 && rpm == 1
  {
    var left := Evicted(Members(log, client), h.now - WINDOW);
    assert left == {};
    assert rpm == 1;
    hide Members, ByRedis, RedisAdmits, CountInWindow, ClockRuns;
    var ts := ByRedis(log, client, rpm);
    forall i | 0 <= i < |ts| ensures ts[i] <= s {
      if ts[i] > s {
        AdmittedStay(log, client, rpm, h, ts[i]);
      }
    }
    NoneInWindow(ByRedis(log, client, rpm), s);
  }

  /** Without distinct timestamps the bound holds for limits of at most one request per minute, and for no other. */
  lemma RedisBoundExact(rpm: nat)
    ensures RedisIsBounded(rpm) <==> rpm <= 1
  {
    if rpm <= 1 {
      forall log: seq<Hit>, client, s | ClockRuns(log) ensures CountInWindow(ByRedis(log, client, rpm), s) <= rpm {
        SmallLimitBound(log, client, rpm, s);
      }
    } else {
      BurstAdmitted(rpm + 1, "", 0, rpm);
      assert ClockRuns(Burst(rpm + 1, "", 0));
    }
  }

  /* ----- Redis is the stricter limiter ----- */

  function AsLog(log: seq<Hit>, rpm: nat): seq<Request> {
    if log == [] then []
    else AsLog(log[..|log| - 1], rpm) + [Request(log[|log| - 1].client, log[|log| - 1].now, Some(rpm))]
  }

  lemma {:induction false} AsLogNext(log: seq<Hit>, h: Hit, rpm: nat)
    ensures AsLog(log + [h], rpm) == AsLog(log, rpm) + [Request(h.client, h.now, Some(rpm))]
  {
    assert (log + [h])[..|log|] == log;
  }

  ghost predicate HitAt(log: seq<Hit>, client: string, t: int) {
    exists i :: 0 <= i < |log| && log[i].client == client && log[i].now == t
  }

  lemma HitAtNext(log: seq<Hit>, h: Hit, client: string, t: int)
    requires HitAt(log, client, t)
    ensures HitAt(log + [h], client, t)
    ensures DistinctTimes(log + [h], client) && h.client == client ==> t < h.now
  {
    var i :| 0 <= i < |log| && log[i].client == client && log[i].now == t;
    var all := log + [h];
    assert all[i] == log[i] && all[|log|] == h;
  }

  lemma {:induction false} RecordedWereHits(log: seq<Hit>, client: string, rpm: nat)
    requires DistinctTimes(log, client)
    ensures Increasing(Recorded(AsLog(log, rpm), client))
    ensures forall t :: t in Recorded(AsLog(log, rpm), client) ==> HitAt(log, client, t)
    decreases |log|
  {
    if log != [] {
      hide Recorded, Admits, AsLog, HitAt, Increasing;
      var n := |log| - 1;
      var init, h := log[..n], log[n];
      assert log == init + [h];
      DistinctBefore(init, h, client);
      RecordedWereHits(init, client, rpm);
      AsLogNext(init, h, rpm);
      RecordedNext(AsLog(init, rpm), Request(h.client, h.now, Some(rpm)), client);
      var before := Recorded(AsLog(init, rpm), client);
      forall t | t in before
        ensures HitAt(log, client, t)
        ensures h.client == client ==> t < h.now
      {
        HitAtNext(init, h, client, t);
      }
      if h.client == client {
        IncreasingAppend(before, h.now);
        assert log[n] == h;
        LastIsHit(log);
      }
    }
  }

  lemma LastIsHit(log: seq<Hit>)
    requires log != []
    ensures HitAt(log, log[|log| - 1].client, log[|log| - 1].now)
  {
  }

  lemma IncreasingAppend(ts: seq<int>, t: int)
    requires Increasing(ts) && forall u :: u in ts ==> u < t
    ensures Increasing(ts + [t])
  {
    forall i | 0 <= i < |ts| ensures ts[i] < t { assert ts[i] in ts; }
  }

  lemma {:induction false} CountAfterInSet(ts: seq<int>, cutoff: int, members: set<int>)
    requires Increasing(ts) && forall t :: t in ts && t > cutoff ==> t in members
    ensures CountAfter(ts, cutoff) <= |members|
  {
    if ts != [] {
      var n := |ts| - 1;
      if ts[n] > cutoff {
        assert ts[n] in ts && ts[n] in members;
        CountAfterInSet(ts[..n], cutoff, members - {ts[n]});
      } else {
        CountAfterInSet(ts[..n], cutoff, members);
      }
    }
  }

  /** With distinct timestamps and no faults, a request that Redis admits is also admitted by the deque limiter fed
      the same history. The converse fails, since Redis counts refused requests. */
  lemma {:induction false} RedisIsStricter(log: seq<Hit>, h: Hit, rpm: nat)
    requires ClockRuns(log + [h]) && DistinctTimes(log + [h], h.client)
    requires forall i :: 0 <= i < |log| ==> log[i].fault == NoFault
    requires RedisAdmits(Members(log, h.client), h, rpm)
    ensures Admits(Recorded(AsLog(log, rpm), h.client), Request(h.client, h.now, Some(rpm)))
  {
    hide Members, Recorded, RedisAdmits, Evicted, AsLog, DistinctTimes, ClockRuns;
    var ts, cutoff := Recorded(AsLog(log, rpm), h.client), h.now - WINDOW;
    ClockRan(log, h);
    DistinctBefore(log, h, h.client);
    RecordedWereHits(log, h.client, rpm);
    forall t | t in ts && t > cutoff ensures t in Evicted(Members(log, h.client), cutoff) {
      var i :| 0 <= i < |log| && log[i].client == h.client && log[i].now == t;
      StillMember(log, h, i);
    }
    CountAfterInSet(ts, cutoff, Evicted(Members(log, h.client), cutoff));
    AdmitsWith(Members(log, h.client), h, rpm);
  }

  /** The converse fails: after one admitted and one refused request, with a limit of one, the deque limiter admits
      again one window after the first, while Redis still counts the refused one. */
  lemma RedisIsStrictlyStricter()
    ensures var log, h := [Hit("a", 1, NoFault), Hit("a", WINDOW, NoFault)], Hit("a", WINDOW + 1, NoFault);
            && ClockRuns(log + [h]) && DistinctTimes(log + [h], "a")
            && !RedisAdmits(Members(log, "a"), h, 1)
            && Admits(Recorded(AsLog(log, 1), "a"), Request("a", h.now, Some(1)))
  {
    hide Members, Recorded, AsLog;
    var h0, h1, h2 := Hit("a", 1, NoFault), Hit("a", WINDOW, NoFault), Hit("a", WINDOW + 1, NoFault);
    RefusedIsMember(h0, h1);
    assert WINDOW in Evicted(Members([h0, h1], "a"), h2.now - WINDOW);
    RefusedIsNotRecorded(h0, h1);
    assert CountAfter([1], 1) == 0;
  }

  lemma RefusedIsMember(h0: Hit, h1: Hit)
    requires h1.fault == NoFault
    ensures h1.now in Members([h0, h1], h1.client)
  {
    hide Members;
    assert [h0] + [h1] == [h0, h1];
    MembersNext([h0], h1, h1.client);
  }

  lemma RefusedIsNotRecorded(h0: Hit, h1: Hit)
    requires h0.client == h1.client && h0.now > h1.now - WINDOW
    ensures Recorded(AsLog([h0, h1], 1), h0.client) == [h0.now]
  {
    var r0, r1 := Request(h0.client, h0.now, Some(1)), Request(h1.client, h1.now, Some(1));
    assert [h0] + [h1] == [h0, h1] && [] + [h0] == [h0];
    AsLogNext([], h0, 1);
    AsLogNext([h0], h1, 1);
    assert AsLog([], 1) == [];
    hide AsLog, Recorded;
    RecordedNext([], r0, h0.client);
    assert Recorded([], h0.client) == [] by { NoneRecorded(h0.client); }
    RecordedNext([] + [r0], r1, h0.client);
    assert CountAfter([h0.now], h1.now - WINDOW) == 1;
  }

  lemma {:induction false} NoneRecorded(client: string)
    ensures Recorded([], client) == []
  {
  }

  lemma AdmitsWith(before: set<int>, h: Hit, rpm: nat)
    requires RedisAdmits(before, h, rpm)
    ensures |Evicted(before, h.now - WINDOW)| < rpm
  {
  }

  lemma DistinctBefore(log: seq<Hit>, h: Hit, client: string)
    requires DistinctTimes(log + [h], client)
    ensures DistinctTimes(log, client)
  {
    var all := log + [h];
    forall i, j | 0 <= i < j < |log| && log[i].client == log[j].client == client ensures log[i].now < log[j].now {
      assert all[i] == log[i] && all[j] == log[j];
    }
  }

  lemma {:induction false} StillMember(log: seq<Hit>, h: Hit, i: nat)
    requires ClockRuns(log + [h]) && i < |log|
    requires log[i].client == h.client && log[i].fault != FailsBefore && log[i].now > h.now - WINDOW
    ensures log[i].now in Evicted(Members(log, h.client), h.now - WINDOW)
  {
    hide Members, ClockRuns;
    ClockRan(log, h);
    MembersKeepWindow(log, h.client, i);
  }

  /* ----- The gate ----- */

  lemma {:induction false} FallenThroughLimits(log: seq<Hit>, rpm: nat)
    ensures forall i :: 0 <= i < |FallenThrough(log, rpm)| ==> FallenThrough(log, rpm)[i].limit == Some(rpm)
  {
    if log != [] {
      FallenThroughLimits(log[..|log| - 1], rpm);
    }
  }

  /** The gate admits at most `2 * rpm` requests of a client in any window of 60 seconds, whatever faults Redis has,
      if the client's timestamps are distinct. */
  lemma GateWindowBound(log: seq<Hit>, client: string, rpm: nat, s: int)
    requires ClockRuns(log) && DistinctTimes(log, client)
    ensures AdmittedByGate(log, client, rpm, s) <= 2 * rpm
  {
    RedisWindowBound(log, client, rpm, s);
    FallenThroughLimits(log, rpm);
    WindowBound(FallenThrough(log, rpm), client, s, rpm);
  }

  /** The requests of a client that the gate admits in `(s, s + WINDOW]`. */
  ghost function AdmittedByGate(log: seq<Hit>, client: string, rpm: nat, s: int): nat {
    CountInWindow(ByRedis(log, client, rpm), s) + CountInWindow(Recorded(FallenThrough(log, rpm), client), s)
  }

  ghost predicate GateIsBounded(rpm: nat) {
    forall log: seq<Hit>, client, s :: ClockRuns(log) ==> AdmittedByGate(log, client, rpm, s) <= 2 * rpm
  }

  /** With timestamps that may coincide, the gate keeps its bound for limits of at most one request per minute, and
      for no other. */
  lemma GateBoundExact(rpm: nat)
    ensures GateIsBounded(rpm) <==> rpm <= 1
  {
    hide ByRedis, Recorded, FallenThrough, CountInWindow;
    if rpm <= 1 {
      forall log: seq<Hit>, client, s | ClockRuns(log) ensures AdmittedByGate(log, client, rpm, s) <= 2 * rpm {
        SmallLimitBound(log, client, rpm, s);
        FallenThroughLimits(log, rpm);
        WindowBound(FallenThrough(log, rpm), client, s, rpm);
      }
    } else {
      var log := Burst(2 * rpm + 1, "", 0);
      BurstAdmitted(2 * rpm + 1, "", 0, rpm);
      assert ClockRuns(log);
      assert AdmittedByGate(log, "", rpm, -1) > 2 * rpm;
    }
  }
}
