/** The relay from the outbox table to the task queues (`relay_once` in `workers/core/outbox_relay.py`). */
module OutboxRelay {
  import opened Wrappers

  datatype Event = Event(eventType: string, operation: string)

  /** A row of the outbox table. */
  datatype Row = Row(id: nat, event: Event, processed: bool)

  /** A task sent to the broker; `id` is the outbox row it was sent for. */
  datatype Message = Message(id: nat, queue: string, operation: string)

  function QueueOf(eventType: string): Option<string> {
    if eventType == "scan_requested" || eventType == "document.scan_requested" then Some("safecontext_scan")
    else if eventType == "sanitize_requested" || eventType == "document.sanitize_requested" then Some("safecontext_sanitize")
    else if eventType == "classify_requested" || eventType == "document.classify_requested" then Some("safecontext_classify")
    else if eventType == "audit_requested" then Some("safecontext_audit")
    else if eventType == "review_requested" then Some("safecontext_review")
    else None
  }

  predicate HasActor(queue: string) {
    queue in {"safecontext_scan", "safecontext_sanitize", "safecontext_classify", "safecontext_audit", "safecontext_review"}
  }

  predicate Mapped(row: Row) {
    QueueOf(row.event.eventType).Some?
  }

  function MessageFor(row: Row): Message
    requires Mapped(row)
  {
    Message(row.id, QueueOf(row.event.eventType).value, row.event.operation)
  }

  /** No queue lacks an actor, so the relay's guard for that never skips a row. */
  lemma EveryQueueHasActor(eventType: string)
    requires QueueOf(eventType).Some?
    ensures HasActor(QueueOf(eventType).value)
  {
  }

  /* ----- One call ----- */

  function Pending(rows: seq<Row>): seq<Row> {
    if rows == [] then []
    else (if rows[0].processed then [] else [rows[0]]) + Pending(rows[1..])
  }

  /** The messages for a batch, in its order. */
  function Sends(batch: seq<Row>): seq<Message> {
    if batch == [] then []
    else (if Mapped(batch[0]) then [MessageFor(batch[0])] else []) + Sends(batch[1..])
  }

  function Unmapped(batch: seq<Row>): seq<Row> {
    if batch == [] then []
    else (if Mapped(batch[0]) then [] else [batch[0]]) + Unmapped(batch[1..])
  }

  function FirstOf(pending: seq<Row>, batchSize: nat): seq<Row> {
    if |pending| <= batchSize then pending else pending[..batchSize]
  }

  /** `UPDATE outbox SET processed = true WHERE id = …`. */
  function Mark(rows: seq<Row>, id: nat): seq<Row> {
    if rows == [] then []
    else (if rows[0].id == id then [rows[0].(processed := true)] else [rows[0]]) + Mark(rows[1..], id)
  }

  /** The table once every message of `sent` is acknowledged. */
  function MarkAll(rows: seq<Row>, sent: seq<Message>): seq<Row> {
    if sent == [] then rows else Mark(MarkAll(rows, sent[..|sent| - 1]), sent[|sent| - 1].id)
  }

  /** What goes wrong in one call: nothing, the send with the given number raises (whether or not its message
      arrived), or the commit fails. */
  datatype Fault = NoFault | SendRaises(at: nat, arrived: bool) | CommitFails

  /** The messages that reach the broker during a call. */
  function Arrived(messages: seq<Message>, fault: Fault): seq<Message> {
    if fault.SendRaises? && fault.at < |messages|
    then messages[..if fault.arrived then fault.at + 1 else fault.at]
    else messages
  }

  predicate Commits(messages: seq<Message>, fault: Fault) {
    fault.NoFault? || (fault.SendRaises? && fault.at >= |messages|)
  }

  function Due(rows: seq<Row>, batchSize: nat): seq<Message> {
    Sends(FirstOf(Pending(rows), batchSize))
  }

  /** `FOR UPDATE SKIP LOCKED`: the rows that no other transaction holds. */
  function Unlocked(pending: seq<Row>, locked: set<nat>): seq<Row> {
    if pending == [] then []
    else (if pending[0].id in locked then [] else [pending[0]]) + Unlocked(pending[1..], locked)
  }

  /** What is due when the rows in `locked` are skipped. */
  function DueBeside(rows: seq<Row>, locked: set<nat>, batchSize: nat): seq<Message> {
    Sends(FirstOf(Unlocked(Pending(rows), locked), batchSize))
  }

  /** With no other transaction at work, the batch is the oldest pending rows. */
  lemma {:induction false} DueAlone(rows: seq<Row>, batchSize: nat)
    ensures DueBeside(rows, {}, batchSize) == Due(rows, batchSize)
  {
    hide Pending, Sends, FirstOf;
    NothingLocked(Pending(rows));
  }

  lemma {:induction false} NothingLocked(pending: seq<Row>)
    ensures Unlocked(pending, {}) == pending
  {
    if pending != [] {
      NothingLocked(pending[1..]);
    }
  }

  ghost predicate WasSent(sent: seq<Message>, id: nat) {
    exists i :: 0 <= i < |sent| && sent[i].id == id
  }

  lemma {:induction false} MarkKeepsIds(rows: seq<Row>, id: nat)
    ensures |Mark(rows, id)| == |rows|
    ensures forall i :: 0 <= i < |rows| ==>
              Mark(rows, id)[i] == if rows[i].id == id then rows[i].(processed := true) else rows[i]
  {
    if rows != [] {
      MarkKeepsIds(rows[1..], id);
    }
  }

  lemma SentLonger(sent: seq<Message>, more: seq<Message>, id: nat)
    requires WasSent(sent, id) || WasSent(more, id)
    ensures WasSent(sent + more, id)
  {
    if WasSent(sent, id) {
      var i :| 0 <= i < |sent| && sent[i].id == id;
      assert (sent + more)[i].id == id;
    } else {
      var i :| 0 <= i < |more| && more[i].id == id;
      assert (sent + more)[|sent| + i].id == id;
    }
  }

  /** What marking the rows of some messages does to each row. */
  lemma {:induction false} MarkAllRows(rows: seq<Row>, sent: seq<Message>)
    ensures |MarkAll(rows, sent)| == |rows|
    ensures forall i :: 0 <= i < |rows| ==>
              MarkAll(rows, sent)[i] == if WasSent(sent, rows[i].id) then rows[i].(processed := true) else rows[i]
  {
    hide Mark;
    if sent != [] {
      var n := |sent| - 1;
      var init, m := sent[..n], sent[n];
      assert sent == init + [m];
      MarkAllRows(rows, init);
      MarkKeepsIds(MarkAll(rows, init), m.id);
      forall i | 0 <= i < |rows|
        ensures MarkAll(rows, sent)[i] == if WasSent(sent, rows[i].id) then rows[i].(processed := true) else rows[i]
      {
        WasSentNext(init, m, rows[i].id);
      }
    }
  }

  lemma WasSentNext(sent: seq<Message>, m: Message, id: nat)
    ensures WasSent(sent + [m], id) <==> WasSent(sent, id) || m.id == id
  {
    if WasSent(sent, id) || m.id == id {
      assert m.id == id ==> WasSent([m], id) by { assert [m][0] == m; }
      SentLonger(sent, [m], id);
    }
  }

  class Relay {
    const batchSize: nat
    /** The table in the order of `created_at`. */
    var rows: seq<Row>
    /** Everything the broker received. */
    var sent: seq<Message>

    constructor (batchSize: nat, rows: seq<Row>, sent: seq<Message>)
      ensures this.batchSize == batchSize && this.rows == rows && this.sent == sent
    {
      this.batchSize := batchSize;
      this.rows := rows;
      this.sent := sent;
    }

    /** One call of the relay, beside transactions that hold the rows in `locked`. A call that raises has sent messages
        but marks no row. */
    method RelayOnce(locked: set<nat>, fault: Fault) returns (relayed: Option<nat>)
      modifies this
      ensures var due := DueBeside(old(rows), locked, batchSize);
              if fault.SendRaises? && fault.at < |due| then
                && sent == old(sent) + due[..if fault.arrived then fault.at + 1 else fault.at]
                && rows == old(rows) && relayed == None
              else if fault.CommitFails? then
                sent == old(sent) + due && rows == old(rows) && relayed == None
              else
                && sent == old(sent) + due && relayed == Some(|due|)
                && |rows| == |old(rows)|
                && forall i :: 0 <= i < |rows| ==>
                     rows[i] == if WasSent(due, old(rows)[i].id) then old(rows)[i].(processed := true) else old(rows)[i]
      ensures var due := DueBeside(old(rows), locked, batchSize);
              && sent == old(sent) + Arrived(due, fault)
              && (Commits(due, fault) ==> rows == MarkAll(old(rows), due) && relayed == Some(|due|))
              && (!Commits(due, fault) ==> rows == old(rows) && relayed == None)
    {
      var events := FirstOf(Unlocked(Pending(rows), locked), batchSize);
      var inTransaction := rows;
      var count := 0;
      ghost var messages := Sends(events);
      hide Pending, Unlocked, FirstOf, Mark, MarkAll, Sends, QueueOf;
      assert events[..0] == [] && messages[..0] == [];
      NothingSent(rows);
      for i := 0 to |events|
        invariant rows == old(rows)
        invariant count == |Sends(events[..i])| <= |messages|
        invariant Sends(events[..i]) == messages[..count]
        invariant sent == old(sent) + messages[..count]
        invariant inTransaction == MarkAll(rows, messages[..count])
        invariant fault.SendRaises? ==> count <= fault.at
      {
        SendsNext(events, i);
        var event := events[i];
        var queue := QueueOf(event.event.eventType);
        if queue.None? {
          continue;
        }
        EveryQueueHasActor(event.event.eventType);
        if !HasActor(queue.value) {
          continue;
        }
        var message := Message(event.id, queue.value, event.event.operation);
        assert messages[..count + 1] == messages[..count] + [message];
        MarkAllNext(rows, messages[..count], message);
        if fault.SendRaises? && fault.at == count {
          if fault.arrived {
            sent := sent + [message];
          }
          return None;
        }
        sent := sent + [message];
        inTransaction := Mark(inTransaction, event.id);
        count := count + 1;
      }
      assert events[..|events|] == events && messages[..count] == messages;
      if fault.CommitFails? {
        return None;
      }
      MarkAllRows(rows, messages);
      rows := inTransaction;
      return Some(count);
    }
  }

  lemma {:induction false} NothingSent(rows: seq<Row>)
    ensures Sends([]) == [] && MarkAll(rows, []) == rows
  {
  }

  lemma {:induction false} MarkAllNext(rows: seq<Row>, sent: seq<Message>, m: Message)
    ensures MarkAll(rows, sent + [m]) == Mark(MarkAll(rows, sent), m.id)
  {
    assert (sent + [m])[..|sent|] == sent;
  }

  lemma {:induction false} SendsConcat(a: seq<Row>, b: seq<Row>)
    ensures Sends(a + b) == Sends(a) + Sends(b)
  {
    hide Mapped, MessageFor;
    if a == [] {
      assert a + b == b;
    } else {
      assert (a + b)[1..] == a[1..] + b;
      SendsConcat(a[1..], b);
      Associative(if Mapped(a[0]) then [MessageFor(a[0])] else [], Sends(a[1..]), Sends(b));
    }
  }

  lemma Associative<T>(a: seq<T>, b: seq<T>, c: seq<T>)
    ensures a + b + c == a + (b + c)
  {
  }

  lemma SendsNext(batch: seq<Row>, i: nat)
    requires i < |batch|
    ensures Sends(batch[..i + 1]) == Sends(batch[..i]) + if Mapped(batch[i]) then [MessageFor(batch[i])] else []
    ensures |Sends(batch[..i + 1])| <= |Sends(batch)|
    ensures Sends(batch[..i + 1]) == Sends(batch)[..|Sends(batch[..i + 1])|]
  {
    assert batch[..i + 1] == batch[..i] + [batch[i]];
    assert batch == batch[..i + 1] + batch[i + 1..];
    SendsConcat(batch[..i], [batch[i]]);
    SendsConcat(batch[..i + 1], batch[i + 1..]);
    assert Sends([batch[i]]) == if Mapped(batch[i]) then [MessageFor(batch[i])] else [] by {
      assert [batch[i]][1..] == [];
    }
  }

  /* ----- What is due, in terms of the table ----- */

  ghost predicate Names(eventType: string, queue: string, kind: string) {
    && queue == "safecontext_" + kind
    && (eventType == kind + "_requested"
        || (kind in {"scan", "sanitize", "classify"} && eventType == "document." + kind + "_requested"))
  }

  lemma ConcatNames()
    ensures "scan" + "_requested" == "scan_requested" && "sanitize" + "_requested" == "sanitize_requested"
    ensures "classify" + "_requested" == "classify_requested" && "audit" + "_requested" == "audit_requested"
    ensures "review" + "_requested" == "review_requested"
  {
  }

  lemma ConcatDocumentNames()
    ensures "document." + "scan" + "_requested" == "document.scan_requested"
    ensures "document." + "sanitize" + "_requested" == "document.sanitize_requested"
    ensures "document." + "classify" + "_requested" == "document.classify_requested"
  {
  }

  lemma ConcatQueues()
    ensures "safecontext_" + "scan" == "safecontext_scan" && "safecontext_" + "sanitize" == "safecontext_sanitize"
    ensures "safecontext_" + "classify" == "safecontext_classify" && "safecontext_" + "audit" == "safecontext_audit"
    ensures "safecontext_" + "review" == "safecontext_review"
  {
  }

  /** Which queue a type of event goes to: `<kind>_requested` and, for three kinds, `document.<kind>_requested` go to
      `safecontext_<kind>`; all other types go nowhere. */
  lemma QueueNames(eventType: string, queue: string)
    ensures QueueOf(eventType) == Some(queue)
       <==> exists kind :: kind in {"scan", "sanitize", "classify", "audit", "review"} && Names(eventType, queue, kind)
  {
    ConcatNames();
    ConcatDocumentNames();
    ConcatQueues();
    if QueueOf(eventType) == Some(queue) {
      var kind := if queue == "safecontext_scan" then "scan"
                  else if queue == "safecontext_sanitize" then "sanitize"
                  else if queue == "safecontext_classify" then "classify"
                  else if queue == "safecontext_audit" then "audit" else "review";
      assert Names(eventType, queue, kind);
    }
  }

  /** A row that a call may take. */
  predicate Available(row: Row, locked: set<nat>) {
    !row.processed && row.id !in locked
  }

  /** The number of available rows before the `i`-th. */
  function Ahead(rows: seq<Row>, locked: set<nat>, i: nat): nat
    requires i <= |rows|
  {
    if i == 0 then 0 else Ahead(rows, locked, i - 1) + if Available(rows[i - 1], locked) then 1 else 0
  }

  lemma {:induction false} AheadUnfolds(rows: seq<Row>, locked: set<nat>, i: nat)
    requires 0 < i <= |rows|
    ensures Ahead(rows, locked, i) == Ahead(rows[1..], locked, i - 1) + if Available(rows[0], locked) then 1 else 0
  {
    hide Available;
    if i > 1 {
      AheadUnfolds(rows, locked, i - 1);
      assert rows[1..][i - 2] == rows[i - 1];
    }
  }

  lemma {:induction false} DueUnfolds(rows: seq<Row>, locked: set<nat>, batchSize: nat)
    requires rows != []
    ensures DueBeside(rows, locked, batchSize)
         == if !Available(rows[0], locked) then DueBeside(rows[1..], locked, batchSize)
            else if batchSize == 0 then []
            else (if Mapped(rows[0]) then [MessageFor(rows[0])] else []) + DueBeside(rows[1..], locked, batchSize - 1)
  {
    hide Sends;
    PendingUnfolds(rows, locked);
    var rest := Unlocked(Pending(rows[1..]), locked);
    hide Pending, Unlocked;
    if Available(rows[0], locked) {
      FirstOfUnfolds(rows[0], rest, batchSize);
      if batchSize > 0 {
        SendsUnfolds(rows[0], FirstOf(rest, batchSize - 1));
      } else {
        EmptyBatch();
      }
    }
  }

  lemma EmptyBatch()
    ensures Sends([]) == []
  {
  }

  lemma {:induction false} PendingUnfolds(rows: seq<Row>, locked: set<nat>)
    requires rows != []
    ensures Unlocked(Pending(rows), locked)
         == if Available(rows[0], locked) then [rows[0]] + Unlocked(Pending(rows[1..]), locked)
            else Unlocked(Pending(rows[1..]), locked)
  {
    var rest := Pending(rows[1..]);
    if rows[0].processed {
      assert Pending(rows) == rest;
    } else {
      assert Pending(rows) == [rows[0]] + rest;
      assert ([rows[0]] + rest)[1..] == rest;
    }
  }

  lemma FirstOfUnfolds(row: Row, rest: seq<Row>, batchSize: nat)
    ensures FirstOf([row] + rest, batchSize) == if batchSize == 0 then [] else [row] + FirstOf(rest, batchSize - 1)
  {
  }

  lemma {:induction false} SendsUnfolds(row: Row, rest: seq<Row>)
    ensures Sends([row] + rest) == (if Mapped(row) then [MessageFor(row)] else []) + Sends(rest)
  {
    assert ([row] + rest)[1..] == rest;
  }

  ghost predicate DistinctIds(rows: seq<Row>) {
    forall i, j :: 0 <= i < j < |rows| ==> rows[i].id != rows[j].id
  }

  lemma {:induction false} DueIsFromTable(rows: seq<Row>, locked: set<nat>, batchSize: nat, m: Message)
    requires m in DueBeside(rows, locked, batchSize)
    ensures exists i :: 0 <= i < |rows| && rows[i].id == m.id
  {
    hide DueBeside, Mapped, MessageFor;
    if rows == [] {
      NothingDue(locked, batchSize);
    } else {
      DueUnfolds(rows, locked, batchSize);
      if Available(rows[0], locked) && batchSize > 0 && Mapped(rows[0]) && m == MessageFor(rows[0]) {
        OwnMessage(rows[0]);
      } else {
        var size := if Available(rows[0], locked) && batchSize > 0 then batchSize - 1 else batchSize;
        DueIsFromTable(rows[1..], locked, size, m);
        var i :| 0 <= i < |rows| - 1 && rows[1..][i].id == m.id;
        assert rows[i + 1].id == m.id;
      }
    }
  }

  lemma NothingDue(locked: set<nat>, batchSize: nat)
    ensures DueBeside([], locked, batchSize) == []
  {
  }

  lemma OwnMessage(row: Row)
    requires Mapped(row)
    ensures MessageFor(row).id == row.id
  {
  }

  /** A message is due for a row if and only if the row is available and mapped, and fewer available rows than the batch
      holds are older. */
  lemma {:induction false} DueExact(rows: seq<Row>, locked: set<nat>, batchSize: nat, i: nat)
    requires DistinctIds(rows) && i < |rows|
    ensures WasSent(DueBeside(rows, locked, batchSize), rows[i].id)
       <==> Available(rows[i], locked) && Mapped(rows[i]) && Ahead(rows, locked, i) < batchSize
    decreases |rows|
  {
    hide DueBeside, Mapped, MessageFor, WasSent, Available;
    DueUnfolds(rows, locked, batchSize);
    var first := if Mapped(rows[0]) then [MessageFor(rows[0])] else [];
    var size := if Available(rows[0], locked) && batchSize > 0 then batchSize - 1 else batchSize;
    var later := DueBeside(rows[1..], locked, size);
    if i == 0 {
      assert Ahead(rows, locked, 0) == 0;
      if WasSent(later, rows[0].id) {
        SentIsFromTable(rows[1..], locked, size, rows[0].id);
      }
      FirstWasSent(rows[0], later, rows[0].id);
      NoneWasSent(rows[0].id);
    } else {
      AheadUnfolds(rows, locked, i);
      assert rows[1..][i - 1] == rows[i];
      DueExact(rows[1..], locked, size, i - 1);
      FirstWasSent(rows[0], later, rows[i].id);
      NoneWasSent(rows[i].id);
    }
  }

  lemma NoneWasSent(id: nat)
    ensures !WasSent([], id)
  {
  }

  lemma FirstWasSent(row: Row, later: seq<Message>, id: nat)
    ensures WasSent((if Mapped(row) then [MessageFor(row)] else []) + later, id)
       <==> (Mapped(row) && row.id == id) || WasSent(later, id)
  {
    var first := if Mapped(row) then [MessageFor(row)] else [];
    if WasSent(first + later, id) {
      var i :| 0 <= i < |first + later| && (first + later)[i].id == id;
      if i >= |first| {
        assert later[i - |first|].id == id;
      }
    }
    if WasSent(later, id) {
      SentLonger(first, later, id);
    }
    if Mapped(row) && row.id == id {
      assert (first + later)[0].id == id;
    }
  }

  lemma {:induction false} SentIsFromTable(rows: seq<Row>, locked: set<nat>, batchSize: nat, id: nat)
    requires WasSent(DueBeside(rows, locked, batchSize), id)
    ensures exists i :: 0 <= i < |rows| && rows[i].id == id
  {
    hide DueBeside;
    var due := DueBeside(rows, locked, batchSize);
    var k :| 0 <= k < |due| && due[k].id == id;
    assert due[k] in due;
    DueIsFromTable(rows, locked, batchSize, due[k]);
  }

  /** No call sends a row and leaves an older one behind that is pending, unlocked and of a type with a queue. */
  lemma {:induction false} OldestFirst(rows: seq<Row>, locked: set<nat>, batchSize: nat, i: nat, j: nat)
    requires DistinctIds(rows) && i < j < |rows|
    requires !rows[i].processed && rows[i].id !in locked && QueueOf(rows[i].event.eventType).Some?
    requires exists m :: m in DueBeside(rows, locked, batchSize) && m.id == rows[j].id
    ensures exists m :: m in DueBeside(rows, locked, batchSize) && m.id == rows[i].id
  {
    hide DueBeside, Ahead;
    var due := DueBeside(rows, locked, batchSize);
    var m :| m in due && m.id == rows[j].id;
    var l :| 0 <= l < |due| && due[l] == m;
    assert WasSent(due, rows[j].id);
    DueExact(rows, locked, batchSize, i);
    DueExact(rows, locked, batchSize, j);
    AheadGrows(rows, locked, i, j);
    var k :| 0 <= k < |due| && due[k].id == rows[i].id;
    assert due[k] in due;
  }

  lemma {:induction false} AheadGrows(rows: seq<Row>, locked: set<nat>, i: nat, j: nat)
    requires i <= j <= |rows|
    ensures Ahead(rows, locked, i) <= Ahead(rows, locked, j)
    decreases j - i
  {
    if i < j {
      AheadGrows(rows, locked, i, j - 1);
    }
  }
}
