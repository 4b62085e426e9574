/** The two in-memory limiters: bounded deques per MCP client (`check_rate_limit` in `core/auth_oidc.py`) and
    filtered lists per tenant (`check_tenant_rate_limit` in `core/quotas.py`). Both implement `SlidingWindow`. */
module MemoryLimiters {
  import opened Wrappers
  import opened SlidingWindow

  type Store = map<string, seq<int>>

  function Stored(store: Store, client: string): seq<int> {
    if client in store then store[client] else []
  }

  const MAX_IDLE_CLIENTS: nat := 10_000
  const EVICTION_INTERVAL: int := 30_000_000

  /** `deque(maxlen=capacity).append(t)`: a full deque drops its head. */
  function PushBounded(dq: seq<int>, t: int, capacity: nat): seq<int> {
    if capacity == 0 then [] else if |dq| < capacity then dq + [t] else dq[|dq| + 1 - capacity..] + [t]
  }

  lemma PushFits(dq: seq<int>, t: int, capacity: nat)
    requires |dq| < capacity
    ensures PushBounded(dq, t, capacity) == dq + [t]
  {
  }

  /** Every client's stored times are the end of its recorded ones, cut no later than `cutoff`. */
  ghost predicate Implements(store: Store, log: seq<Request>, cutoff: int) {
    forall client :: KeepsEnd(Stored(store, client), Recorded(log, client), cutoff)
  }

  /** The cutoff of the last request. */
  function Cutoff(log: seq<Request>): int {
    if log == [] then 0 else log[|log| - 1].now - WINDOW
  }

  predicate NotBefore(log: seq<Request>, now: int) {
    log == [] || log[|log| - 1].now <= now
  }

  lemma ClockStillAdvances(log: seq<Request>, r: Request)
    requires ClockAdvances(log) && NotBefore(log, r.now)
    ensures ClockAdvances(log + [r])
  {
  }

  /** All stored times of a client whose newest one is outdated are outdated. */
  lemma IdleIsOutdated(kept: seq<int>, recorded: seq<int>, cutoff: int)
    requires KeepsEnd(kept, recorded, cutoff) && Nondecreasing(recorded)
    requires kept == [] || kept[|kept| - 1] <= cutoff
    ensures KeepsEnd([], recorded, cutoff)
  {
    var k := |recorded| - |kept|;
    forall i | 0 <= i < |recorded| ensures recorded[i] <= cutoff {
      if i >= k {
        assert recorded[|recorded| - 1] == kept[|kept| - 1];
      }
    }
  }

  /** `while dq and dq[0] <= window_start: dq.popleft()`. */
  method EvictHead(before: seq<int>, ghost recorded: seq<int>, cutoff: int) returns (dq: seq<int>)
    requires KeepsEnd(before, recorded, cutoff) && Nondecreasing(recorded)
    ensures KeepsEnd(dq, recorded, cutoff)
    ensures |dq| == CountAfter(recorded, cutoff) && |dq| <= |before|
    ensures dq != [] ==> dq[0] > cutoff
  {
    dq := before;
    while dq != [] && dq[0] <= cutoff
      invariant KeepsEnd(dq, recorded, cutoff) && |dq| <= |before|
      decreases |dq|
    {
      assert dq[0] == recorded[|recorded| - |dq|];
      dq := dq[1..];
    }
    KeptIsCount(dq, recorded, cutoff);
  }

  lemma LastCutoff(log: seq<Request>, r: Request)
    ensures Cutoff(log + [r]) == r.now - WINDOW
  {
  }

  lemma {:induction false} ReadyToEvict(store: Store, log: seq<Request>, client: string, now: int)
    requires Implements(store, log, Cutoff(log)) && ClockAdvances(log) && NotBefore(log, now)
    ensures forall rpm :: Bounded(store, rpm) ==> |Stored(store, client)| <= rpm
    ensures Implements(store, log, now - WINDOW) && Nondecreasing(Recorded(log, client))
    ensures KeepsEnd(Stored(store, client), Recorded(log, client), now - WINDOW)
  {
    hide Recorded, KeepsEnd, Nondecreasing, ClockAdvances, Implements;
    RecordedTimes(log, client);
    CutoffAdvances(store, log, now);
    StoredKeepsEnd(store, log, client, now - WINDOW);
  }

  /** The evicted deque decides, and storing it keeps the relation to the history. */
  lemma {:induction false} DequeWindow(store: Store, log: seq<Request>, r: Request, dq: seq<int>)
    requires Implements(store, log, r.now - WINDOW) && ClockAdvances(log) && NotBefore(log, r.now) && r.limit.Some?
    requires KeepsEnd(dq, Recorded(log, r.client), r.now - WINDOW)
    requires |dq| == CountAfter(Recorded(log, r.client), r.now - WINDOW)
    ensures Admits(Recorded(log, r.client), r) <==> |dq| < r.limit.value
    ensures Admits(Recorded(log, r.client), r) <==> |AdmittedAfter(log, r.client, r.now - 60_000_000)| < r.limit.value
    ensures Implements(store[r.client := if |dq| < r.limit.value then dq + [r.now] else dq], log + [r], r.now - WINDOW)
    ensures ClockAdvances(log + [r])
  {
    hide KeepsEnd, Recorded, CountAfter, Implements, AdmittedAfter;
    AdmissionExact(log, r);
    StoreOne(store, log, r, dq);
    ClockStillAdvances(log, r);
  }

  lemma KeysNext(store: Store, client: string, ts: seq<int>)
    ensures store[client := ts].Keys == store.Keys + {client} && |store[client := ts]| == |store.Keys + {client}|
  {
    var after := store[client := ts];
    assert after.Keys == store.Keys + {client} && |after| == |after.Keys|;
  }

  ghost predicate Bounded(store: Store, rpm: nat) {
    forall client :: client in store ==> |store[client]| <= rpm
  }

  ghost predicate SameLimit(log: seq<Request>, rpm: nat) {
    forall i :: 0 <= i < |log| ==> log[i].limit == Some(rpm)
  }

  lemma BoundsNext(store: Store, log: seq<Request>, r: Request, dq: seq<int>, rpm: nat)
    requires Bounded(store, rpm) && SameLimit(log, rpm) && |dq| <= rpm && r.limit == Some(rpm)
    ensures Bounded(store[r.client := dq], rpm) && SameLimit(log + [r], rpm)
  {
  }

  /** The clients whose newest time is not before `windowStart`. */
  function Recent(store: Store, windowStart: int): set<string> {
    set client | client in store && store[client] != [] && store[client][|store[client]| - 1] >= windowStart
  }

  lemma RecentNext(store: Store, client: string, ts: seq<int>, windowStart: int)
    requires ts != [] && ts[|ts| - 1] >= windowStart
    ensures Recent(store[client := ts], windowStart) == Recent(store, windowStart) + {client}
  {
  }

  class DequeLimiter {
    const rpm: nat
    var store: Store
    var lastEviction: int
    ghost var log: seq<Request>

    constructor (rpm: nat)
      ensures Valid() && log == [] && this.rpm == rpm
    {
      this.rpm := rpm;
      store := map[];
      lastEviction := 0;
      log := [];
    }

    ghost predicate Valid()
      reads this
    {
      && ClockAdvances(log)
      && Implements(store, log, Cutoff(log))
      && Bounded(store, rpm) && SameLimit(log, rpm)
    }

    /** One call: admitted or refused exactly as the sliding window says, whatever was evicted or purged before. */
    method CheckRateLimit(client: string, now: int) returns (admitted: bool)
      requires Valid() && NotBefore(log, now)
      modifies this
      ensures Valid()
      ensures log == old(log) + [Request(client, now, Some(rpm))]
      ensures admitted == Admits(Recorded(old(log), client), Request(client, now, Some(rpm)))
      ensures admitted <==> |AdmittedAfter(old(log), client, now - 60_000_000)| < rpm
      ensures var keys := old(store).Keys + {client};
              var purges := admitted && |keys| > 10_000 && now - old(lastEviction) > 30_000_000;
              && lastEviction == (if purges then now else old(lastEviction))
              && store.Keys == if purges then Recent(old(store), now - 60_000_000) + {client} else keys
    {
      hide KeepsEnd, Recorded, CountAfter, Implements, AdmittedAfter, Admits, ClockAdvances, Nondecreasing, Cutoff, NotBefore;
      hide Recent, PushBounded, Stored, Bounded, SameLimit;
      ghost var r := Request(client, now, Some(rpm));
      var windowStart := now - WINDOW;
      ReadyToEvict(store, log, client, now);
      var dq := EvictHead(Stored(store, client), Recorded(log, client), windowStart);
      admitted := |dq| < rpm;
      DequeWindow(store, log, r, dq);
      if admitted {
        PushFits(dq, now, rpm);
        dq := PushBounded(dq, now, rpm);
      }
      BoundsNext(store, log, r, dq, rpm);
      store := store[client := dq];
      log := log + [r];
      LastCutoff(old(log), r);
      KeysNext(old(store), client, dq);
      if admitted {
        RecentNext(old(store), client, dq, windowStart);
        PurgeSometimes(windowStart, now);
      }
    }

    /** At most once per interval, and only while many clients are stored. */
    method PurgeSometimes(windowStart: int, now: int)
      requires Valid() && log != [] && windowStart == Cutoff(log)
      modifies this`store, this`lastEviction
      ensures Valid()
      ensures var purges := |old(store)| > 10_000 && now - old(lastEviction) > 30_000_000;
              && lastEviction == (if purges then now else old(lastEviction))
              && store.Keys == (if purges then Recent(old(store), windowStart) else old(store).Keys)
      ensures forall client :: client in store ==> store[client] == old(store)[client]
    {
      if |store| > MAX_IDLE_CLIENTS && now - lastEviction > EVICTION_INTERVAL {
        PurgeIdle(windowStart);
        lastEviction := now;
      }
    }

    /** Deleting idle clients changes no later decision, because what it forgets is already outside the window. */
    method PurgeIdle(windowStart: int)
      requires Valid() && log != [] && windowStart == Cutoff(log)
      modifies this`store
      ensures Valid()
      ensures store.Keys == Recent(old(store), windowStart)
      ensures forall client :: client in store ==> store[client] == old(store)[client]
    {
      var stale := set client | client in store && (store[client] == [] || store[client][|store[client]| - 1] < windowStart);
      ghost var before := store;
      store := store - stale;
      forall client ensures KeepsEnd(Stored(store, client), Recorded(log, client), windowStart) {
        assert KeepsEnd(Stored(before, client), Recorded(log, client), windowStart);
        RecordedTimes(log, client);
        if client in stale {
          IdleIsOutdated(before[client], Recorded(log, client), windowStart);
        }
      }
    }
  }

  /** With no request yet nothing is recorded, so any cutoff will do; later the cutoff only grows. */
  lemma CutoffAdvances(store: Store, log: seq<Request>, now: int)
    requires Implements(store, log, Cutoff(log)) && NotBefore(log, now)
    ensures Implements(store, log, now - WINDOW)
  {
    forall client ensures KeepsEnd(Stored(store, client), Recorded(log, client), now - WINDOW) {
      assert KeepsEnd(Stored(store, client), Recorded(log, client), Cutoff(log));
      if log != [] {
        KeepsEndLater(Stored(store, client), Recorded(log, client), Cutoff(log), now - WINDOW);
      }
    }
  }

  lemma {:induction false} StoredKeepsEnd(store: Store, log: seq<Request>, client: string, cutoff: int)
    requires Implements(store, log, cutoff)
    ensures KeepsEnd(Stored(store, client), Recorded(log, client), cutoff)
  {
  }

  lemma KeepsEndAppend(kept: seq<int>, recorded: seq<int>, cutoff: int, t: int)
    requires KeepsEnd(kept, recorded, cutoff)
    ensures KeepsEnd(kept + [t], recorded + [t], cutoff)
  {
    var k := |recorded| - |kept|;
    assert (recorded + [t])[k..] == recorded[k..] + [t];
  }

  /** Storing the evicted times of one client, with its own time if it was admitted. */
  lemma {:induction false} StoreOne(store: Store, log: seq<Request>, r: Request, dq: seq<int>)
    requires Implements(store, log, r.now - WINDOW) && r.limit.Some?
    requires KeepsEnd(dq, Recorded(log, r.client), r.now - WINDOW)
    ensures Implements(store[r.client := if Admits(Recorded(log, r.client), r) then dq + [r.now] else dq],
                       log + [r], r.now - WINDOW)
  {
    hide KeepsEnd, Recorded, Admits;
    var after := store[r.client := if Admits(Recorded(log, r.client), r) then dq + [r.now] else dq];
    KeepsEndAppend(dq, Recorded(log, r.client), r.now - WINDOW, r.now);
    forall client ensures KeepsEnd(Stored(after, client), Recorded(log + [r], client), r.now - WINDOW) {
      RecordedNext(log, r, client);
      if client != r.client {
        assert Stored(after, client) == Stored(store, client);
      }
    }
  }

  /* ----- The list of a tenant ----- */

  /** `[t for t in window if t > cutoff]`. */
  function FilterAfter(ts: seq<int>, cutoff: int): seq<int> {
    if ts == [] then []
    else FilterAfter(ts[..|ts| - 1], cutoff) + if ts[|ts| - 1] > cutoff then [ts[|ts| - 1]] else []
  }

  lemma {:induction false} NoneAfter(ts: seq<int>, cutoff: int)
    requires forall i :: 0 <= i < |ts| ==> ts[i] <= cutoff
    ensures FilterAfter(ts, cutoff) == []
  {
    if ts != [] {
      NoneAfter(ts[..|ts| - 1], cutoff);
    }
  }

  lemma {:induction false} FilterNext(ts: seq<int>, t: int, cutoff: int)
    ensures FilterAfter(ts + [t], cutoff) == FilterAfter(ts, cutoff) + if t > cutoff then [t] else []
  {
    assert (ts + [t])[..|ts|] == ts;
  }

  lemma LastIsLargest(ts: seq<int>, t: int)
    requires Nondecreasing(ts + [t])
    ensures Nondecreasing(ts) && forall i :: 0 <= i < |ts + [t]| ==> (ts + [t])[i] <= t
  {
    var all := ts + [t];
    assert all[|ts|] == t;
    forall i, j | 0 <= i < j < |ts| ensures ts[i] <= ts[j] { assert all[i] <= all[j]; }
  }

  lemma OutdatedEnd(ts: seq<int>, cutoff: int)
    requires forall i :: 0 <= i < |ts| ==> ts[i] <= cutoff
    ensures KeepsEnd([], ts, cutoff)
  {
    assert ts[|ts|..] == [];
  }

  lemma {:induction false} FilterIsEnd(ts: seq<int>, cutoff: int)
    requires Nondecreasing(ts)
    ensures KeepsEnd(FilterAfter(ts, cutoff), ts, cutoff)
    ensures FilterAfter(ts, cutoff) != [] ==> FilterAfter(ts, cutoff)[0] > cutoff
  {
    hide KeepsEnd, Nondecreasing, FilterAfter;
    if ts != [] {
      var n := |ts| - 1;
      var init, t := ts[..n], ts[n];
      assert ts == init + [t];
      LastIsLargest(init, t);
      FilterIsEnd(init, cutoff);
      FilterNext(init, t, cutoff);
      if t > cutoff {
        KeepsEndAppend(FilterAfter(init, cutoff), init, cutoff, t);
      } else {
        NoneAfter(ts, cutoff);
        OutdatedEnd(ts, cutoff);
      }
    } else {
      NoneAfter(ts, cutoff);
      OutdatedEnd(ts, cutoff);
    }
  }

  lemma EndOfEnd(inner: seq<int>, middle: seq<int>, outer: seq<int>, cutoff: int)
    requires KeepsEnd(inner, middle, cutoff) && KeepsEnd(middle, outer, cutoff)
    ensures KeepsEnd(inner, outer, cutoff)
  {
    var k, m := |outer| - |middle|, |outer| - |inner|;
    assert outer[m..] == outer[k..][m - k..];
    forall i | 0 <= i < m ensures outer[i] <= cutoff {
      if i >= k {
        assert outer[i] == middle[i - k];
      }
    }
  }

  lemma EndIsSorted(kept: seq<int>, recorded: seq<int>, cutoff: int)
    requires KeepsEnd(kept, recorded, cutoff) && Nondecreasing(recorded)
    ensures Nondecreasing(kept)
  {
    var k := |recorded| - |kept|;
    assert forall i :: 0 <= i < |kept| ==> kept[i] == recorded[k + i];
  }

  /** Filtering a tenant's list leaves the requests that count, and storing it keeps the relation to the history. */
  lemma {:induction false} TenantWindow(store: Store, log: seq<Request>, r: Request)
    requires Implements(store, log, r.now - WINDOW) && ClockAdvances(log) && r.limit.Some?
    ensures var window := FilterAfter(Stored(store, r.client), r.now - WINDOW);
            && (Admits(Recorded(log, r.client), r) <==> |window| < r.limit.value)
            && Implements(store[r.client := if Admits(Recorded(log, r.client), r) then window + [r.now] else window],
                          log + [r], r.now - WINDOW)
  {
    hide KeepsEnd, Recorded, CountAfter, Implements, FilterAfter, ClockAdvances, Nondecreasing;
    var cutoff, recorded := r.now - WINDOW, Recorded(log, r.client);
    var before := Stored(store, r.client);
    StoredKeepsEnd(store, log, r.client, cutoff);
    RecordedTimes(log, r.client);
    EndIsSorted(before, recorded, cutoff);
    FilterIsEnd(before, cutoff);
    var window := FilterAfter(before, cutoff);
    EndOfEnd(window, before, recorded, cutoff);
    KeptIsCount(window, recorded, cutoff);
    StoreOne(store, log, r, window);
  }

  class TenantLimiter {
    var timestamps: Store
    ghost var log: seq<Request>

    constructor ()
      ensures Valid() && log == []
    {
      timestamps := map[];
      log := [];
    }

    ghost predicate Valid()
      reads this
    {
      ClockAdvances(log) && Implements(timestamps, log, Cutoff(log))
    }

    method CheckTenantRateLimit(tenant: string, limit: Option<int>, now: int) returns (admitted: bool)
      requires Valid() && NotBefore(log, now)
      modifies this
      ensures Valid()
      ensures log == old(log) + [Request(tenant, now, limit)]
      ensures admitted == Admits(Recorded(old(log), tenant), Request(tenant, now, limit))
      ensures admitted <==> limit.None? || |AdmittedAfter(old(log), tenant, now - 60_000_000)| < limit.value
    {
      hide KeepsEnd, Recorded, CountAfter, Implements, Admits, FilterAfter, ClockAdvances, AdmittedAfter;
      ghost var r := Request(tenant, now, limit);
      AdmissionExact(log, r);
      CutoffAdvances(timestamps, log, now);
      ClockStillAdvances(log, r);
      if limit.None? {
        UnlimitedLeavesNoTrace(timestamps, log, r);
        log := log + [r];
        return true;
      }
      TenantWindow(timestamps, log, r);
      var window := FilterAfter(Stored(timestamps, tenant), now - WINDOW);
      admitted := |window| < limit.value;
      if admitted {
        window := window + [now];
      }
      timestamps := timestamps[tenant := window];
      log := log + [r];
    }
  }

  lemma {:induction false} UnlimitedLeavesNoTrace(store: Store, log: seq<Request>, r: Request)
    requires Implements(store, log, r.now - WINDOW) && r.limit.None?
    ensures Implements(store, log + [r], r.now - WINDOW)
    ensures Admits(Recorded(log, r.client), r)
  {
    hide KeepsEnd, Recorded;
    forall client ensures KeepsEnd(Stored(store, client), Recorded(log + [r], client), r.now - WINDOW) {
      RecordedNext(log, r, client);
    }
  }

  /* ----- The two decide alike ----- */

  datatype Call = Call(client: string, now: int)

  function WithLimit(calls: seq<Call>, rpm: nat): (log: seq<Request>)
    ensures |log| == |calls|
    ensures forall i :: 0 <= i < |calls| ==> log[i] == Request(calls[i].client, calls[i].now, Some(rpm))
  {
    seq(|calls|, i requires 0 <= i < |calls| => Request(calls[i].client, calls[i].now, Some(rpm)))
  }

  lemma NextCall(calls: seq<Call>, i: nat, rpm: nat)
    requires i < |calls|
    requires forall i, j :: 0 <= i < j < |calls| ==> calls[i].now <= calls[j].now
    ensures var log, r := WithLimit(calls[..i], rpm), Request(calls[i].client, calls[i].now, Some(rpm));
            && WithLimit(calls[..i + 1], rpm) == log + [r]
            && NotBefore(log, r.now)
            && Decisions(log + [r]) == Decisions(log) + [Admits(Recorded(log, r.client), r)]
  {
    var log, r := WithLimit(calls[..i], rpm), Request(calls[i].client, calls[i].now, Some(rpm));
    assert WithLimit(calls[..i + 1], rpm) == log + [r];
    RecordedNext(log, r, r.client);
  }

  lemma NoCalls(calls: seq<Call>, rpm: nat)
    ensures WithLimit(calls[..0], rpm) == [] && Decisions([]) == []
  {
  }

  /** Fed the same calls with the same limit, the deque limiter and the list limiter make the same decisions: those
      of the sliding window. */
  method RunBoth(calls: seq<Call>, rpm: nat) returns (byDeque: seq<bool>, byList: seq<bool>)
    requires forall i, j :: 0 <= i < j < |calls| ==> calls[i].now <= calls[j].now
    ensures byDeque == byList == Decisions(WithLimit(calls, rpm))
  {
    hide Admits, Decisions, Recorded, WithLimit, Implements, ClockAdvances;
    NoCalls(calls, rpm);
    var deque := new DequeLimiter(rpm);
    var list := new TenantLimiter();
    byDeque, byList := [], [];
    for i := 0 to |calls|
      invariant fresh(deque) && fresh(list)
      invariant deque.Valid() && list.Valid() && deque.rpm == rpm
      invariant deque.log == list.log == WithLimit(calls[..i], rpm)
      invariant byDeque == byList == Decisions(deque.log)
    {
      var c := calls[i];
      NextCall(calls, i, rpm);
      var a := deque.CheckRateLimit(c.client, c.now);
      var b := list.CheckTenantRateLimit(c.client, Some(rpm), c.now);
      byDeque, byList := byDeque + [a], byList + [b];
    }
    assert calls[..|calls|] == calls;
  }
}
