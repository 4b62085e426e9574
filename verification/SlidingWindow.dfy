/** What a sliding-window limiter is meant to do: a request is admitted when fewer than `limit` admitted requests
    of the same client lie in the window that ends with it. Times are integers, in microseconds. */
module SlidingWindow {
  import opened Wrappers

  const WINDOW: int := 60_000_000

  /** `limit` is None for a tenant without a limit. */
  datatype Request = Request(client: string, now: int, limit: Option<int>)

  /** The number of times after `cutoff`. */
  function CountAfter(ts: seq<int>, cutoff: int): nat {
    if ts == [] then 0
    else CountAfter(ts[..|ts| - 1], cutoff) + if ts[|ts| - 1] > cutoff then 1 else 0
  }

  /** The number of times in the window `(s, s + WINDOW]`. */
  function CountInWindow(ts: seq<int>, s: int): nat {
    if ts == [] then 0
    else CountInWindow(ts[..|ts| - 1], s) + if s < ts[|ts| - 1] <= s + WINDOW then 1 else 0
  }

  /** Whether a request is admitted, given the times recorded for its client. */
  predicate Admits(recorded: seq<int>, r: Request) {
    r.limit.None? || CountAfter(recorded, r.now - WINDOW) < r.limit.value
  }

  /** The times recorded for a client: those of its admitted requests, except that unlimited ones leave no trace. */
  function Recorded(log: seq<Request>, client: string): seq<int> {
    if log == [] then []
    else
      var n := |log| - 1;
      var before := Recorded(log[..n], client);
      if log[n].client == client && log[n].limit.Some? && Admits(before, log[n]) then before + [log[n].now] else before
  }

  /** The decision on each request of a log. */
  function Decisions(log: seq<Request>): (decisions: seq<bool>)
    ensures |decisions| == |log|
  {
    if log == [] then []
    else
      var n := |log| - 1;
      Decisions(log[..n]) + [Admits(Recorded(log[..n], log[n].client), log[n])]
  }

  /** The earlier requests of a client that were admitted under a limit, after `cutoff`. */
  function AdmittedAfter(log: seq<Request>, client: string, cutoff: int): set<nat> {
    set i | 0 <= i < |log| && log[i].client == client && log[i].limit.Some? && Decisions(log)[i] && log[i].now > cutoff
  }

  lemma {:induction false} CountAfterNext(ts: seq<int>, t: int, cutoff: int)
    ensures CountAfter(ts + [t], cutoff) == CountAfter(ts, cutoff) + if t > cutoff then 1 else 0
  {
    assert (ts + [t])[..|ts|] == ts;
  }

  lemma {:induction false} AdmittedNext(log: seq<Request>, r: Request, client: string, cutoff: int)
    ensures var before := AdmittedAfter(log, client, cutoff);
            AdmittedAfter(log + [r], client, cutoff)
              == if r.client == client && r.limit.Some? && Admits(Recorded(log, client), r) && r.now > cutoff
                 then before + {|log|} else before
  {
    hide Recorded, Admits, Decisions;
    RecordedNext(log, r, client);
    assert |Decisions(log)| == |log|;
  }

  lemma {:induction false} CountIsAdmitted(log: seq<Request>, client: string, cutoff: int)
    ensures CountAfter(Recorded(log, client), cutoff) == |AdmittedAfter(log, client, cutoff)|
  {
    if log == [] {
      assert AdmittedAfter([], client, cutoff) == {};
    } else {
      var n := |log| - 1;
      assert log == log[..n] + [log[n]];
      CountIsAdmitted(log[..n], client, cutoff);
      CountIsAdmittedNext(log[..n], log[n], client, cutoff);
    }
  }

  lemma {:induction false} CountIsAdmittedNext(log: seq<Request>, r: Request, client: string, cutoff: int)
    requires CountAfter(Recorded(log, client), cutoff) == |AdmittedAfter(log, client, cutoff)|
    ensures CountAfter(Recorded(log + [r], client), cutoff) == |AdmittedAfter(log + [r], client, cutoff)|
  {
    AdmittedNext(log, r, client, cutoff);
    assert |log| !in AdmittedAfter(log, client, cutoff);
    hide CountAfter, Admits, Recorded, Decisions, AdmittedAfter;
    RecordedNext(log, r, client);
    CountAfterNext(Recorded(log, client), r.now, cutoff);
  }

  /** The decision, in terms of the earlier ones: a request under a limit is admitted if and only if fewer than that many
      requests of its client were admitted under a limit in the 60 seconds before it. */
  lemma {:induction false} AdmissionExact(log: seq<Request>, r: Request)
    ensures Decisions(log + [r])[|log|] == Admits(Recorded(log, r.client), r)
    ensures Admits(Recorded(log, r.client), r)
       <==> r.limit.None? || |AdmittedAfter(log, r.client, r.now - 60_000_000)| < r.limit.value
  {
    hide Recorded, AdmittedAfter, CountAfter;
    RecordedNext(log, r, r.client);
    CountIsAdmitted(log, r.client, r.now - 60_000_000);
  }

  ghost predicate Nondecreasing(ts: seq<int>) {
    forall i, j :: 0 <= i < j < |ts| ==> ts[i] <= ts[j]
  }

  ghost predicate ClockAdvances(log: seq<Request>) {
    forall i, j :: 0 <= i < j < |log| ==> log[i].now <= log[j].now
  }

  lemma {:induction false} WindowWithin(ts: seq<int>, s: int, cutoff: int)
    requires cutoff <= s
    ensures CountInWindow(ts, s) <= CountAfter(ts, cutoff)
  {
    if ts != [] {
      WindowWithin(ts[..|ts| - 1], s, cutoff);
    }
  }

  /** In every run, whatever the interleaving of clients and even if limits change from call to call, no window of
      60 seconds holds more recorded requests of a client than the largest limit its requests carried. */
  lemma {:induction false} WindowBound(log: seq<Request>, client: string, s: int, bound: nat)
    requires forall i :: 0 <= i < |log| && log[i].client == client && log[i].limit.Some? ==> log[i].limit.value <= bound
    ensures CountInWindow(Recorded(log, client), s) <= bound
  {
    if log != [] {
      var n := |log| - 1;
      var before, after := Recorded(log[..n], client), Recorded(log, client);
      WindowBound(log[..n], client, s, bound);
      if after != before {
        assert after[..|after| - 1] == before;
        if s < log[n].now <= s + WINDOW {
          WindowWithin(before, s, log[n].now - WINDOW);
        }
      }
    }
  }

  /* ----- What an implementation keeps of a client's recorded times ----- */

  /** `kept` is the end of `recorded`, and what was dropped is not after `cutoff`. */
  ghost predicate KeepsEnd(kept: seq<int>, recorded: seq<int>, cutoff: int) {
    && |kept| <= |recorded|
    && kept == recorded[|recorded| - |kept|..]
    && forall i :: 0 <= i < |recorded| - |kept| ==> recorded[i] <= cutoff
  }

  lemma {:induction false} CountAfterAll(ts: seq<int>, k: nat, cutoff: int)
    requires k <= |ts|
    requires forall i :: 0 <= i < k ==> ts[i] <= cutoff
    requires forall i :: k <= i < |ts| ==> ts[i] > cutoff
    ensures CountAfter(ts, cutoff) == |ts| - k
  {
    if ts != [] {
      CountAfterAll(ts[..|ts| - 1], if k == |ts| then k - 1 else k, cutoff);
    }
  }

  /** Once nothing outdated is left, the number kept is the number that counts. */
  lemma {:induction false} KeptIsCount(kept: seq<int>, recorded: seq<int>, cutoff: int)
    requires KeepsEnd(kept, recorded, cutoff) && Nondecreasing(recorded)
    requires kept != [] ==> kept[0] > cutoff
    ensures |kept| == CountAfter(recorded, cutoff)
  {
    var k := |recorded| - |kept|;
    forall i | k <= i < |recorded| ensures recorded[i] > cutoff {
      assert recorded[i] == kept[i - k] && recorded[k] == kept[0];
    }
    CountAfterAll(recorded, k, cutoff);
  }

  lemma {:induction false} RecordedTimes(log: seq<Request>, client: string)
    requires ClockAdvances(log)
    ensures Nondecreasing(Recorded(log, client))
    ensures log != [] ==> forall i :: 0 <= i < |Recorded(log, client)| ==> Recorded(log, client)[i] <= log[|log| - 1].now
  {
    if log != [] {
      var n := |log| - 1;
      RecordedTimes(log[..n], client);
      var before := Recorded(log[..n], client);
      forall i | 0 <= i < |before| ensures before[i] <= log[n].now {
        assert n > 0 ==> log[..n][n - 1].now <= log[n].now;
      }
    }
  }

  lemma {:induction false} RecordedNext(log: seq<Request>, r: Request, client: string)
    ensures Recorded(log + [r], client)
         == if r.client == client && r.limit.Some? && Admits(Recorded(log, client), r)
            then Recorded(log, client) + [r.now] else Recorded(log, client)
    ensures Decisions(log + [r]) == Decisions(log) + [Admits(Recorded(log, r.client), r)]
  {
    assert (log + [r])[..|log|] == log;
  }

  /** The cutoff only grows, and dropping what it excludes keeps the end. */
  lemma KeepsEndLater(kept: seq<int>, recorded: seq<int>, cutoff: int, later: int)
    requires KeepsEnd(kept, recorded, cutoff) && cutoff <= later
    ensures KeepsEnd(kept, recorded, later)
  {
  }
}
