/** What repeated fault-free calls of the relay achieve, and what unmapped rows at the head of the table prevent. */
module OutboxDrain {
  import opened OutboxRelay

  /** The pending rows that one call leaves pending: the unmapped ones of its batch, and those behind the batch. */
  function Rest(pending: seq<Row>, batchSize: nat): seq<Row> {
    Unmapped(FirstOf(pending, batchSize)) + pending[|FirstOf(pending, batchSize)|..]
  }

  /** The table after one call without faults. */
  function Relayed(rows: seq<Row>, batchSize: nat): seq<Row> {
    MarkAll(rows, Due(rows, batchSize))
  }

  /** The table after `calls` calls without faults. */
  function AfterCalls(rows: seq<Row>, batchSize: nat, calls: nat): seq<Row> {
    if calls == 0 then rows else Relayed(AfterCalls(rows, batchSize, calls - 1), batchSize)
  }

  /** What those calls send. */
  function SentBy(rows: seq<Row>, batchSize: nat, calls: nat): seq<Message> {
    if calls == 0 then []
    else SentBy(rows, batchSize, calls - 1) + Due(AfterCalls(rows, batchSize, calls - 1), batchSize)
  }

  /* ----- Marking rows removes them from the pending ones ----- */

  function Drop(pending: seq<Row>, id: nat): seq<Row> {
    if pending == [] then []
    else (if pending[0].id == id then [] else [pending[0]]) + Drop(pending[1..], id)
  }

  function DropAll(pending: seq<Row>, sent: seq<Message>): seq<Row> {
    if sent == [] then pending else Drop(DropAll(pending, sent[..|sent| - 1]), sent[|sent| - 1].id)
  }

  lemma {:induction false} MarkPending(rows: seq<Row>, id: nat)
    ensures Pending(Mark(rows, id)) == Drop(Pending(rows), id)
  {
    if rows != [] {
      var marked := Mark(rows, id);
      assert marked[1..] == Mark(rows[1..], id);
      MarkPending(rows[1..], id);
      var head := if rows[0].processed then [] else [rows[0]];
      DropConcat(head, Pending(rows[1..]), id);
      assert Drop(head, id) == if rows[0].processed || rows[0].id == id then [] else head by {
        assert [rows[0]][1..] == [];
      }
      assert marked[0].processed <==> rows[0].processed || rows[0].id == id;
    }
  }

  lemma {:induction false} MarkAllPending(rows: seq<Row>, sent: seq<Message>)
    ensures Pending(MarkAll(rows, sent)) == DropAll(Pending(rows), sent)
  {
    if sent != [] {
      MarkAllPending(rows, sent[..|sent| - 1]);
      MarkPending(MarkAll(rows, sent[..|sent| - 1]), sent[|sent| - 1].id);
    }
  }

  lemma {:induction false} MarkAllKeepsDistinct(rows: seq<Row>, sent: seq<Message>)
    requires DistinctIds(rows)
    ensures DistinctIds(MarkAll(rows, sent))
  {
    if sent != [] {
      MarkAllKeepsDistinct(rows, sent[..|sent| - 1]);
      MarkKeepsIds(MarkAll(rows, sent[..|sent| - 1]), sent[|sent| - 1].id);
    }
  }

  ghost predicate Absent(rows: seq<Row>, id: nat) {
    forall i :: 0 <= i < |rows| ==> rows[i].id != id
  }

  lemma {:induction false} PendingAbsent(rows: seq<Row>, id: nat)
    requires Absent(rows, id)
    ensures Absent(Pending(rows), id)
  {
    if rows != [] {
      PendingAbsent(rows[1..], id);
    }
  }

  lemma {:induction false} PendingDistinct(rows: seq<Row>)
    requires DistinctIds(rows)
    ensures DistinctIds(Pending(rows))
  {
    if rows != [] {
      PendingDistinct(rows[1..]);
      PendingAbsent(rows[1..], rows[0].id);
    }
  }

  lemma {:induction false} UnmappedAbsent(rows: seq<Row>, id: nat)
    requires Absent(rows, id)
    ensures Absent(Unmapped(rows), id)
  {
    if rows != [] {
      UnmappedAbsent(rows[1..], id);
    }
  }

  lemma {:induction false} DropAbsent(a: seq<Row>, id: nat)
    requires Absent(a, id)
    ensures Drop(a, id) == a
  {
    if a != [] {
      DropAbsent(a[1..], id);
    }
  }

  lemma {:induction false} DropConcat(a: seq<Row>, b: seq<Row>, id: nat)
    ensures Drop(a + b, id) == Drop(a, id) + Drop(b, id)
  {
    if a == [] {
      assert a + b == b;
    } else {
      assert (a + b)[1..] == a[1..] + b;
      DropConcat(a[1..], b, id);
      Associative(if a[0].id == id then [] else [a[0]], Drop(a[1..], id), Drop(b, id));
    }
  }

  lemma {:induction false} DropBatch(batch: seq<Row>, tail: seq<Row>)
    requires DistinctIds(batch + tail)
    ensures DropAll(batch + tail, Sends(batch)) == Unmapped(batch) + tail
    decreases |batch|
  {
    hide Sends, Unmapped, DropAll, Drop, DistinctIds, Absent, Mapped, MessageFor;
    if batch == [] {
      DropNothing(tail);
    } else {
      var n := |batch| - 1;
      var init, x := batch[..n], batch[n];
      assert batch == init + [x];
      LastApart(init, x, tail);
      Associative(init, [x], tail);
      DropBatch(init, [x] + tail);
      SendsConcat(init, [x]);
      UnmappedConcat(init, [x]);
      One(x);
      Associative(Unmapped(init), [x], tail);
      NothingMore(Sends(init), Unmapped(init));
      if Mapped(x) {
        DropAllNext(batch + tail, Sends(init), MessageFor(x));
        NamesRow(x);
        DropOne(init, x, tail);
      }
    }
  }

  lemma NothingMore(messages: seq<Message>, rows: seq<Row>)
    ensures messages + [] == messages && rows + [] == rows
  {
  }

  lemma NamesRow(x: Row)
    requires Mapped(x)
    ensures MessageFor(x).id == x.id
  {
  }

  lemma {:induction false} DropNothing(tail: seq<Row>)
    ensures DropAll([] + tail, Sends([])) == Unmapped([]) + tail
  {
  }

  lemma {:induction false} DropAllNext(pending: seq<Row>, sent: seq<Message>, m: Message)
    ensures DropAll(pending, sent + [m]) == Drop(DropAll(pending, sent), m.id)
  {
    assert (sent + [m])[..|sent|] == sent;
  }

  lemma LastApart(init: seq<Row>, x: Row, tail: seq<Row>)
    requires DistinctIds(init + [x] + tail)
    ensures DistinctIds(init + ([x] + tail)) && Absent(init, x.id) && Absent(tail, x.id)
  {
    Associative(init, [x], tail);
    var all := init + [x] + tail;
    assert all[|init|] == x;
    forall i | 0 <= i < |init| ensures init[i].id != x.id { assert all[i] == init[i]; }
    forall i | 0 <= i < |tail| ensures tail[i].id != x.id { assert all[|init| + 1 + i] == tail[i]; }
  }

  lemma One(x: Row)
    ensures Sends([x]) == if Mapped(x) then [MessageFor(x)] else []
    ensures Unmapped([x]) == if Mapped(x) then [] else [x]
  {
    assert [x][1..] == [];
  }

  lemma {:induction false} DropOne(init: seq<Row>, x: Row, tail: seq<Row>)
    requires Absent(init, x.id) && Absent(tail, x.id)
    ensures Drop(Unmapped(init) + ([x] + tail), x.id) == Unmapped(init) + tail
  {
    hide Unmapped, Drop, Absent;
    UnmappedAbsent(init, x.id);
    DropConcat(Unmapped(init), [x] + tail, x.id);
    DropConcat([x], tail, x.id);
    DropAbsent(Unmapped(init), x.id);
    DropAbsent(tail, x.id);
    DropItself(x);
  }

  lemma DropItself(x: Row)
    ensures Drop([x], x.id) == []
  {
    assert [x][1..] == [];
  }

  lemma {:induction false} UnmappedConcat(a: seq<Row>, b: seq<Row>)
    ensures Unmapped(a + b) == Unmapped(a) + Unmapped(b)
  {
    hide Mapped;
    if a == [] {
      assert a + b == b;
    } else {
      assert (a + b)[1..] == a[1..] + b;
      UnmappedConcat(a[1..], b);
      Associative(if Mapped(a[0]) then [] else [a[0]], Unmapped(a[1..]), Unmapped(b));
    }
  }

  lemma BatchSplits(pending: seq<Row>, batchSize: nat)
    ensures pending == FirstOf(pending, batchSize) + pending[|FirstOf(pending, batchSize)|..]
  {
  }

  /** One call leaves exactly the rest pending. */
  lemma {:induction false} PendingAfter(rows: seq<Row>, batchSize: nat)
    requires DistinctIds(rows)
    ensures Pending(Relayed(rows, batchSize)) == Rest(Pending(rows), batchSize)
    ensures DistinctIds(Relayed(rows, batchSize))
  {
    hide Pending, MarkAll, Sends, Unmapped, FirstOf, DropAll, DistinctIds;
    var pending := Pending(rows);
    var batch := FirstOf(pending, batchSize);
    MarkAllPending(rows, Sends(batch));
    PendingDistinct(rows);
    BatchSplits(pending, batchSize);
    DropBatch(batch, pending[|batch|..]);
    MarkAllKeepsDistinct(rows, Sends(batch));
  }

  lemma {:induction false} UnmappedAreUnmapped(rows: seq<Row>)
    ensures Unmapped(Unmapped(rows)) == Unmapped(rows)
    ensures Sends(Unmapped(rows)) == []
  {
    if rows != [] {
      UnmappedAreUnmapped(rows[1..]);
      var head := if Mapped(rows[0]) then [] else [rows[0]];
      One(rows[0]);
      SendsConcat(head, Unmapped(rows[1..]));
      UnmappedConcat(head, Unmapped(rows[1..]));
    }
  }

  /** One call sends the batch's messages ahead of the rest's, and keeps every unmapped row. */
  lemma {:induction false} RestSends(pending: seq<Row>, batchSize: nat)
    ensures Sends(pending) == Sends(FirstOf(pending, batchSize)) + Sends(Rest(pending, batchSize))
    ensures Unmapped(Rest(pending, batchSize)) == Unmapped(pending)
  {
    hide Sends, Unmapped, FirstOf;
    var batch := FirstOf(pending, batchSize);
    BatchSplits(pending, batchSize);
    var tail := pending[|batch|..];
    SendsConcat(batch, tail);
    UnmappedConcat(batch, tail);
    SendsConcat(Unmapped(batch), tail);
    UnmappedConcat(Unmapped(batch), tail);
    UnmappedAreUnmapped(batch);
  }

  lemma {:induction false} AfterCallsDistinct(rows: seq<Row>, batchSize: nat, calls: nat)
    requires DistinctIds(rows)
    ensures DistinctIds(AfterCalls(rows, batchSize, calls))
  {
    if calls > 0 {
      AfterCallsDistinct(rows, batchSize, calls - 1);
      PendingAfter(AfterCalls(rows, batchSize, calls - 1), batchSize);
    }
  }

  /** However many calls are made, what was sent followed by what is still due is what was due at first: no message
      is sent twice, skipped, or out of the order of creation. */
  lemma {:induction false} CallsKeepOrder(rows: seq<Row>, batchSize: nat, calls: nat)
    requires DistinctIds(rows)
    ensures SentBy(rows, batchSize, calls) + Sends(Pending(AfterCalls(rows, batchSize, calls))) == Sends(Pending(rows))
    ensures Unmapped(Pending(AfterCalls(rows, batchSize, calls))) == Unmapped(Pending(rows))
  {
    hide Pending, Sends, Unmapped, Relayed, DistinctIds, Rest;
    if calls > 0 {
      var before := AfterCalls(rows, batchSize, calls - 1);
      CallsKeepOrder(rows, batchSize, calls - 1);
      AfterCallsDistinct(rows, batchSize, calls - 1);
      PendingAfter(before, batchSize);
      RestSends(Pending(before), batchSize);
      Associative(SentBy(rows, batchSize, calls - 1), Due(before, batchSize), Sends(Rest(Pending(before), batchSize)));
    }
  }

  /* ----- Unmapped rows that stand before a mapped one ----- */

  /** The number of unmapped pending rows older than the newest mapped one. */
  function Blockers(pending: seq<Row>): nat {
    if pending == [] then 0
    else
      var n := |pending| - 1;
      if Mapped(pending[n]) then |Unmapped(pending[..n])| else Blockers(pending[..n])
  }

  lemma {:induction false} BlockersConcat(a: seq<Row>, b: seq<Row>)
    ensures Sends(b) != [] ==> Blockers(a + b) == |Unmapped(a)| + Blockers(b)
    ensures Sends(b) == [] ==> Blockers(a + b) == Blockers(a)
    decreases |b|
  {
    hide Mapped, MessageFor, Sends, Unmapped, Blockers;
    if b == [] {
      assert a + b == a;
      NoRows();
    } else {
      var n := |b| - 1;
      var init, x := b[..n], b[n];
      assert b == init + [x];
      Associative(a, init, [x]);
      BlockersConcat(a, init);
      BlockersNext(init, x);
      BlockersNext(a + init, x);
      SendsConcat(init, [x]);
      One(x);
      UnmappedConcat(a, init);
    }
  }

  lemma {:induction false} BlockersNext(rows: seq<Row>, x: Row)
    ensures Blockers(rows + [x]) == if Mapped(x) then |Unmapped(rows)| else Blockers(rows)
  {
    assert (rows + [x])[..|rows|] == rows;
  }

  lemma {:induction false} SendsAndUnmapped(rows: seq<Row>)
    ensures |Sends(rows)| + |Unmapped(rows)| == |rows|
  {
    if rows != [] {
      SendsAndUnmapped(rows[1..]);
    }
  }

  lemma {:induction false} BlockersFewer(pending: seq<Row>)
    ensures Blockers(pending) <= |Unmapped(pending)|
    ensures pending != [] ==> Blockers(pending) < |pending|
  {
    if pending != [] {
      var n := |pending| - 1;
      BlockersFewer(pending[..n]);
      assert pending == pending[..n] + [pending[n]];
      UnmappedConcat(pending[..n], [pending[n]]);
      SendsAndUnmapped(pending[..n]);
    }
  }

  /** One call: while rows behind the batch are due, nothing about the blockers changes; otherwise all is sent. */
  lemma {:induction false} RestBlockers(pending: seq<Row>, batchSize: nat)
    ensures var rest := Rest(pending, batchSize);
            && (Sends(rest) == [] || Blockers(rest) == Blockers(pending))
            && (Sends(rest) == [] || |Sends(rest)| + batchSize <= |Sends(pending)| + Blockers(pending))
            && (Sends(rest) == [] && Sends(pending) != [] ==> Blockers(pending) < batchSize)
  {
    var batch := FirstOf(pending, batchSize);
    var tail := pending[|batch|..];
    BatchSplits(pending, batchSize);
    assert |batch| <= batchSize && (tail != [] ==> |batch| == batchSize);
    assert tail == [] ==> Sends(tail) == [];
    hide Sends, Unmapped, FirstOf, Blockers;
    BlockersConcat(batch, tail);
    BlockersConcat(Unmapped(batch), tail);
    UnmappedAreUnmapped(batch);
    SendsConcat(Unmapped(batch), tail);
    SendsConcat(batch, tail);
    SendsAndUnmapped(batch);
    BlockersFewer(batch);
    NoRows();
  }

  lemma NoRows()
    ensures Sends([]) == []
  {
  }

  lemma {:induction false} Progress(rows: seq<Row>, batchSize: nat, calls: nat)
    requires DistinctIds(rows)
    ensures var pending := Pending(AfterCalls(rows, batchSize, calls));
            || Sends(pending) == []
            || (&& Blockers(pending) == Blockers(Pending(rows))
                && |Sends(pending)| + calls * (batchSize - Blockers(Pending(rows))) <= |Sends(Pending(rows))|)
  {
    hide Pending, Sends, Relayed, DistinctIds, Blockers, Rest;
    if calls > 0 {
      var before := AfterCalls(rows, batchSize, calls - 1);
      Progress(rows, batchSize, calls - 1);
      AfterCallsDistinct(rows, batchSize, calls - 1);
      PendingAfter(before, batchSize);
      RestBlockers(Pending(before), batchSize);
      RestSends(Pending(before), batchSize);
      Distribute(calls, batchSize - Blockers(Pending(rows)));
    }
  }

  lemma Distribute(calls: nat, step: int)
    requires calls > 0
    ensures calls * step == (calls - 1) * step + step
  {
  }

  /** With `n` mapped rows pending and `b` unmapped ones before the newest of them, `b` less than the batch size, the
      first `ceil(n / (batchSize - b))` calls send every pending mapped row once, in the order of creation, and leave
      only the unmapped rows pending. All unmapped rows together are at least `b`. */
  lemma {:induction false} DrainBound(rows: seq<Row>, batchSize: nat, calls: nat)
    requires DistinctIds(rows) && Blockers(Pending(rows)) < batchSize
    requires calls * (batchSize - Blockers(Pending(rows))) >= |Sends(Pending(rows))|
    ensures SentBy(rows, batchSize, calls) == Sends(Pending(rows))
    ensures Sends(Pending(AfterCalls(rows, batchSize, calls))) == []
    ensures Unmapped(Pending(AfterCalls(rows, batchSize, calls))) == Unmapped(Pending(rows))
    ensures Blockers(Pending(rows)) <= |Unmapped(Pending(rows))|
  {
    hide Pending, Sends, AfterCalls, SentBy, DistinctIds, Blockers, Unmapped;
    Progress(rows, batchSize, calls);
    CallsKeepOrder(rows, batchSize, calls);
    BlockersFewer(Pending(rows));
  }

  lemma {:induction false} StuckForever(rows: seq<Row>, batchSize: nat, calls: nat)
    requires DistinctIds(rows) && Blockers(Pending(rows)) >= batchSize && Sends(Pending(rows)) != []
    ensures Sends(Pending(AfterCalls(rows, batchSize, calls))) != []
    ensures Blockers(Pending(AfterCalls(rows, batchSize, calls))) >= batchSize
  {
    hide Pending, Sends, Relayed, DistinctIds, Blockers, Rest;
    if calls > 0 {
      var before := AfterCalls(rows, batchSize, calls - 1);
      StuckForever(rows, batchSize, calls - 1);
      AfterCallsDistinct(rows, batchSize, calls - 1);
      PendingAfter(before, batchSize);
      RestBlockers(Pending(before), batchSize);
    }
  }

  /** Calling the relay again and again sends every pending mapped row if and only if fewer unmapped rows than a
      batch holds are older than the newest of them. */
  lemma DrainExact(rows: seq<Row>, batchSize: nat)
    requires DistinctIds(rows)
    ensures (exists calls: nat :: Sends(Pending(AfterCalls(rows, batchSize, calls))) == [])
            <==> Sends(Pending(rows)) == [] || Blockers(Pending(rows)) < batchSize
  {
    hide Pending, Sends, Relayed, DistinctIds, Blockers, Rest;
    if Sends(Pending(rows)) == [] {
      assert Sends(Pending(AfterCalls(rows, batchSize, 0))) == [];
    } else if Blockers(Pending(rows)) < batchSize {
      var n, step := |Sends(Pending(rows))|, batchSize - Blockers(Pending(rows));
      AtLeast(n, step);
      DrainBound(rows, batchSize, n);
    } else {
      forall calls: nat ensures Sends(Pending(AfterCalls(rows, batchSize, calls))) != [] {
        StuckForever(rows, batchSize, calls);
      }
    }
  }

  lemma AtLeast(n: nat, step: int)
    requires step >= 1
    ensures n * step >= n
  {
  }

  ghost predicate AllUnmapped(batch: seq<Row>) {
    forall i :: 0 <= i < |batch| ==> !Mapped(batch[i])
  }

  /** A call without faults changes nothing if and only if its whole batch is unmapped. */
  lemma {:induction false} FixpointExact(rows: seq<Row>, batchSize: nat)
    ensures Due(rows, batchSize) == [] && Relayed(rows, batchSize) == rows
            <==> AllUnmapped(FirstOf(Pending(rows), batchSize))
  {
    hide Pending, FirstOf, Mapped, MarkAll, Sends, AllUnmapped;
    NothingToSend(FirstOf(Pending(rows), batchSize));
    NothingToMark(rows, Due(rows, batchSize));
  }

  lemma {:induction false} NothingToMark(rows: seq<Row>, sent: seq<Message>)
    ensures sent == [] ==> MarkAll(rows, sent) == rows
  {
  }

  lemma {:induction false} NothingToSend(batch: seq<Row>)
    ensures Sends(batch) == [] <==> AllUnmapped(batch)
  {
    if batch != [] {
      NothingToSend(batch[1..]);
      if Mapped(batch[0]) {
        assert Sends(batch)[0] == MessageFor(batch[0]);
      }
    }
  }
}
