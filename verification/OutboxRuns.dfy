/** Every run of the outbox: rows arrive, relays are called with any fault and beside any locks, the detector acknowledges a row, and
    retention deletes acknowledged rows. */
module OutboxRuns {
  import opened Wrappers
  import opened OutboxRelay
  import opened OutboxDrain

  /** `inserted` is every row there ever was, by id. */
  datatype State = State(inserted: map<nat, Event>, rows: seq<Row>, sent: seq<Message>)

  /** A row becomes visible anywhere in the order, because `created_at` is the start of the inserting transaction. */
  datatype Step =
    | Insert(at: nat, id: nat, event: Event)
    | Call(batchSize: nat, locked: set<nat>, fault: Fault)
    | Detected(id: nat)
    | Purge(at: nat)

  ghost function Next(s: State, step: Step): State {
    match step
    case Insert(at, id, event) =>
      if at > |s.rows| || id in s.inserted then s
      else s.(inserted := s.inserted[id := event], rows := s.rows[..at] + [Row(id, event, false)] + s.rows[at..])
    case Call(batchSize, locked, fault) =>
      var due := DueBeside(s.rows, locked, batchSize);
      s.(rows := if Commits(due, fault) then MarkAll(s.rows, due) else s.rows, sent := s.sent + Arrived(due, fault))
    case Detected(id) =>
      // only a delivered scan task acknowledges a row
      if WasSent(s.sent, id) then s.(rows := Mark(s.rows, id)) else s
    case Purge(at) =>
      if at < |s.rows| && s.rows[at].processed then s.(rows := s.rows[..at] + s.rows[at + 1..]) else s
  }

  ghost function Run(steps: seq<Step>): State {
    if steps == [] then State(map[], [], []) else Next(Run(steps[..|steps| - 1]), steps[|steps| - 1])
  }

  /** A message is one that the relay makes for an inserted row. */
  ghost predicate Justified(inserted: map<nat, Event>, m: Message) {
    && m.id in inserted
    && QueueOf(inserted[m.id].eventType) == Some(m.queue)
    && m.operation == inserted[m.id].operation
  }

  ghost predicate RowKept(inserted: map<nat, Event>, sent: seq<Message>, row: Row) {
    && row.id in inserted
    && row.event == inserted[row.id]
    && (row.processed ==> WasSent(sent, row.id))
  }

  ghost predicate Accounted(s: State, id: nat)
    requires id in s.inserted
  {
    Row(id, s.inserted[id], false) in s.rows || WasSent(s.sent, id)
  }

  ghost predicate Safe(s: State) {
    && DistinctIds(s.rows)
    && (forall row :: row in s.rows ==> RowKept(s.inserted, s.sent, row))
    && (forall m :: m in s.sent ==> Justified(s.inserted, m))
    && (forall id :: id in s.inserted ==> Accounted(s, id))
  }

  lemma {:induction false} DueFromBatch(batch: seq<Row>, m: Message)
    requires m in Sends(batch)
    ensures exists row :: row in batch && Mapped(row) && m == MessageFor(row)
  {
    if m in Sends(batch[1..]) {
      DueFromBatch(batch[1..], m);
      var row :| row in batch[1..] && Mapped(row) && m == MessageFor(row);
      assert row in batch;
    } else {
      assert batch[0] in batch;
    }
  }

  lemma {:induction false} PendingFromRows(rows: seq<Row>, row: Row)
    requires row in Pending(rows)
    ensures row in rows
  {
    if row in Pending(rows[1..]) {
      PendingFromRows(rows[1..], row);
    }
  }

  lemma {:induction false} UnlockedFromPending(pending: seq<Row>, locked: set<nat>, row: Row)
    requires row in Unlocked(pending, locked)
    ensures row in pending
  {
    if row in Unlocked(pending[1..], locked) {
      UnlockedFromPending(pending[1..], locked, row);
    }
  }

  /** Every message that is due is the one for a row of the table. */
  lemma DueIsJustified(s: State, locked: set<nat>, batchSize: nat, m: Message)
    requires Safe(s) && m in DueBeside(s.rows, locked, batchSize)
    ensures Justified(s.inserted, m)
  {
    hide Sends, Pending, Unlocked, QueueOf, Safe;
    var batch := FirstOf(Unlocked(Pending(s.rows), locked), batchSize);
    DueFromBatch(batch, m);
    var row :| row in batch && Mapped(row) && m == MessageFor(row);
    UnlockedFromPending(Pending(s.rows), locked, row);
    PendingFromRows(s.rows, row);
    assert RowKept(s.inserted, s.sent, row) by { SafeRow(s, row); }
  }

  lemma SafeRow(s: State, row: Row)
    requires Safe(s) && row in s.rows
    ensures RowKept(s.inserted, s.sent, row)
  {
  }

  lemma SafeSent(s: State, messages: seq<Message>)
    requires Safe(s) && forall m :: m in messages ==> Justified(s.inserted, m)
    ensures Safe(s.(sent := s.sent + messages))
  {
    hide WasSent, Justified, DistinctIds;
    var t := s.(sent := s.sent + messages);
    forall row | row in t.rows ensures RowKept(t.inserted, t.sent, row) {
      if row.processed {
        SentLonger(s.sent, messages, row.id);
      }
    }
    forall id | id in t.inserted ensures Accounted(t, id) {
      assert Accounted(s, id);
      if WasSent(s.sent, id) {
        SentLonger(s.sent, messages, id);
      }
    }
  }

  /** Rows of messages that were sent may be marked at any time. */
  lemma SafeMarked(s: State, rows: seq<Row>)
    requires Safe(s) && |rows| == |s.rows|
    requires forall i :: 0 <= i < |rows| ==>
               rows[i] == s.rows[i] || (rows[i] == s.rows[i].(processed := true) && WasSent(s.sent, rows[i].id))
    ensures Safe(s.(rows := rows))
  {
    hide WasSent, Justified;
    var t := s.(rows := rows);
    forall row | row in rows ensures RowKept(t.inserted, t.sent, row) {
      var i :| 0 <= i < |rows| && rows[i] == row;
      assert RowKept(s.inserted, s.sent, s.rows[i]);
    }
    forall id | id in t.inserted ensures Accounted(t, id) {
      assert Accounted(s, id);
      var row := Row(id, s.inserted[id], false);
      if row in s.rows {
        var i :| 0 <= i < |rows| && s.rows[i] == row;
        assert rows[i] in rows;
      }
    }
  }

  lemma ArrivedIsDue(messages: seq<Message>, fault: Fault)
    ensures forall m :: m in Arrived(messages, fault) ==> m in messages
    ensures Commits(messages, fault) ==> Arrived(messages, fault) == messages
  {
  }

  lemma SafeCall(s: State, batchSize: nat, locked: set<nat>, fault: Fault)
    requires Safe(s)
    ensures Safe(Next(s, Call(batchSize, locked, fault)))
  {
    hide Safe, DueBeside, MarkAll, Arrived, Commits, WasSent, Justified;
    var due := DueBeside(s.rows, locked, batchSize);
    ArrivedIsDue(due, fault);
    var arrived := Arrived(due, fault);
    forall m | m in arrived ensures Justified(s.inserted, m) {
      DueIsJustified(s, locked, batchSize, m);
    }
    SafeSent(s, arrived);
    if Commits(due, fault) {
      var t := s.(sent := s.sent + arrived);
      MarkAllRows(s.rows, due);
      forall i | 0 <= i < |s.rows| && WasSent(due, s.rows[i].id) ensures WasSent(t.sent, s.rows[i].id) {
        SentLonger(s.sent, due, s.rows[i].id);
      }
      SafeMarked(t, MarkAll(s.rows, due));
    }
  }

  lemma SafeInsert(s: State, at: nat, id: nat, event: Event)
    requires Safe(s)
    ensures Safe(Next(s, Insert(at, id, event)))
  {
    hide WasSent, Justified;
    if at <= |s.rows| && id !in s.inserted {
      var row := Row(id, event, false);
      var t := Next(s, Insert(at, id, event));
      forall m | m in t.sent ensures Justified(t.inserted, m) {
        JustifiedStill(s.inserted, id, event, m);
      }
      forall i | 0 <= i < |s.rows| ensures s.rows[i].id != id {
        assert RowKept(s.inserted, s.sent, s.rows[i]);
      }
      forall r | r in t.rows ensures RowKept(t.inserted, t.sent, r) {
        if r != row {
          InsertedOrOld(s.rows, at, row, r);
          assert RowKept(s.inserted, s.sent, r);
        }
      }
      forall e | e in t.inserted ensures Accounted(t, e) {
        if e != id {
          assert Accounted(s, e);
          StillIn(s.rows, at, row, Row(e, s.inserted[e], false));
        } else {
          assert t.rows[at] == row;
        }
      }
    }
  }

  lemma JustifiedStill(inserted: map<nat, Event>, id: nat, event: Event, m: Message)
    requires Justified(inserted, m) && id !in inserted
    ensures Justified(inserted[id := event], m)
  {
  }

  lemma InsertedOrOld(rows: seq<Row>, at: nat, row: Row, r: Row)
    requires at <= |rows| && r in rows[..at] + [row] + rows[at..] && r != row
    ensures r in rows
  {
  }

  lemma StillIn(rows: seq<Row>, at: nat, row: Row, r: Row)
    requires at <= |rows|
    ensures r in rows ==> r in rows[..at] + [row] + rows[at..]
  {
    assert rows == rows[..at] + rows[at..];
  }

  lemma SafePurge(s: State, at: nat)
    requires Safe(s)
    ensures Safe(Next(s, Purge(at)))
  {
    hide WasSent, Justified;
    if at < |s.rows| && s.rows[at].processed {
      var t := Next(s, Purge(at));
      assert s.rows == s.rows[..at] + [s.rows[at]] + s.rows[at + 1..];
      forall r | r in t.rows ensures RowKept(t.inserted, t.sent, r) {
        assert r in s.rows;
      }
      forall id | id in t.inserted ensures Accounted(t, id) {
        assert Accounted(s, id);
      }
    }
  }

  lemma SafeStep(s: State, step: Step)
    requires Safe(s)
    ensures Safe(Next(s, step))
  {
    match step
    case Insert(at, id, event) => SafeInsert(s, at, id, event);
    case Call(batchSize, locked, fault) => SafeCall(s, batchSize, locked, fault);
    case Detected(id) =>
      hide WasSent, Safe, Mark;
      MarkKeepsIds(s.rows, id);
      if WasSent(s.sent, id) {
        SafeMarked(s, Mark(s.rows, id));
      }
    case Purge(at) => SafePurge(s, at);
  }

  lemma {:induction false} RunIsSafe(steps: seq<Step>)
    ensures Safe(Run(steps))
  {
    hide Next, Safe;
    if steps != [] {
      RunIsSafe(steps[..|steps| - 1]);
      SafeStep(Run(steps[..|steps| - 1]), steps[|steps| - 1]);
    } else {
      NothingYet();
    }
  }

  lemma NothingYet()
    ensures Safe(Run([]))
  {
  }

  /** In every run, whatever fails: a row marked processed was sent at least once; no row is lost before it was sent;
      every message is the one its row asks for; and a row of a type without a queue is never sent or marked, so it
      stays in the table. */
  lemma {:induction false} AtLeastOnce(steps: seq<Step>, id: nat)
    requires id in Run(steps).inserted
    ensures var s := Run(steps); var event := s.inserted[id];
            && (forall row :: row in s.rows && row.id == id && row.processed ==> WasSent(s.sent, id))
            && (Row(id, event, false) in s.rows || WasSent(s.sent, id))
            && (forall m :: m in s.sent && m.id == id ==> QueueOf(event.eventType) == Some(m.queue) && m.operation == event.operation)
            && (QueueOf(event.eventType).None? ==> Row(id, event, false) in s.rows && !WasSent(s.sent, id))
  {
    hide QueueOf, Run;
    RunIsSafe(steps);
    var s := Run(steps);
    assert Accounted(s, id);
    forall row | row in s.rows && row.id == id && row.processed ensures WasSent(s.sent, id) {
      assert RowKept(s.inserted, s.sent, row);
    }
    if WasSent(s.sent, id) {
      var i :| 0 <= i < |s.sent| && s.sent[i].id == id;
      assert Justified(s.inserted, s.sent[i]);
    }
  }
}
