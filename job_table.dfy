/**
 * The effect of `enqueue` and `dequeue` (src/PgQueue.ts:80-131) and of the
 * COUNT query of `estimateQueueSize` (src/PgQueue.ts:139-145) on the job table,
 * seen as a sequence of rows. Each enqueue is modelled as one atomic step that
 * takes the next value of the `bigserial` id sequence and commits at once, so
 * ids increase along the sequence. In PostgreSQL two concurrent enqueues may
 * commit in the other order than they took their ids; the model does not cover
 * that interleaving.
 *
 * The claim statement is
 *   DELETE ... WHERE id = (SELECT id ... WHERE queue = $1 ORDER BY id
 *                          FOR UPDATE SKIP LOCKED LIMIT 1) RETURNING *
 * run in one transaction with the handler `perform`: the lowest-id row of the
 * queue that no concurrent transaction holds locked is deleted and handed to the
 * handler, and the transaction commits only if the handler returns normally.
 */
module JobTable {
  import opened Wrappers

  /** One job: `(id bigserial, queue varchar(255), data json)`; data is the JSON text. */
  datatype Row = Row(id: nat, queue: string, data: string)

  /** The rows in insertion order, and the next value of the id sequence. */
  datatype Table = Table(rows: seq<Row>, nextId: nat)

  /** Ids strictly increase along the rows and stay below the sequence's next value. */
  predicate Valid(t: Table)
  {
    && (forall i, j :: 0 <= i < j < |t.rows| ==> t.rows[i].id < t.rows[j].id)
    && (forall i :: 0 <= i < |t.rows| ==> t.rows[i].id < t.nextId)
  }

  const Empty: Table := Table([], 0)

  /** The rows of one queue, in insertion order. */
  function QueueRows(rows: seq<Row>, queue: string): (r: seq<Row>)
    ensures |r| <= |rows|
    ensures forall k :: 0 <= k < |r| ==> r[k].queue == queue
  {
    if rows == [] then []
    else (if rows[0].queue == queue then [rows[0]] else []) + QueueRows(rows[1..], queue)
  }

  /** `SELECT COUNT(1) FROM table WHERE queue = $1`. */
  function Count(t: Table, queue: string): (r: nat)
    ensures r <= |t.rows|
    ensures r == 0 <==> forall k :: 0 <= k < |t.rows| ==> t.rows[k].queue != queue
  {
    QueueRowsEmptyIff(t.rows, queue);
    |QueueRows(t.rows, queue)|
  }

  lemma {:induction false} QueueRowsEmptyIff(rows: seq<Row>, queue: string)
    ensures QueueRows(rows, queue) == [] <==> forall k :: 0 <= k < |rows| ==> rows[k].queue != queue
  {
    if rows != [] {
      QueueRowsEmptyIff(rows[1..], queue);
      assert forall k :: 1 <= k < |rows| ==> rows[k] == rows[1..][k - 1];
    }
  }

  // ---------------------------------------------------------------- enqueue

  /** `INSERT INTO table(queue, data) VALUES ($1, $2)`, committed. */
  function Insert(t: Table, queue: string, data: string): Table
  {
    Table(t.rows + [Row(t.nextId, queue, data)], t.nextId + 1)
  }

  /** Outcome of one transaction on the table: the table afterwards and whether it committed. */
  datatype TxResult = TxResult(table: Table, committed: bool)

  /**
   * `enqueue(data)`: BEGIN, INSERT with the queue's own name, COMMIT. When a step
   * fails (`fails`), the transaction rolls back and the error is rethrown to the caller.
   */
  function Enqueue(t: Table, queueName: string, data: string, fails: bool): (r: TxResult)
    ensures r.committed == !fails
    ensures !r.committed ==> r.table == t
    ensures r.committed ==>
      && |r.table.rows| == |t.rows| + 1 && r.table.rows[..|t.rows|] == t.rows
      && r.table.rows[|t.rows|].queue == queueName && r.table.rows[|t.rows|].data == data
      && r.table.nextId > t.nextId
    ensures Valid(t) ==> Valid(r.table)
  {
    if fails then TxResult(t, false) else TxResult(Insert(t, queueName, data), true)
  }

  lemma InsertValid(t: Table, queue: string, data: string)
    requires Valid(t)
    ensures Valid(Insert(t, queue, data))
    ensures forall k :: 0 <= k < |t.rows| ==> t.rows[k].id < Insert(t, queue, data).rows[|t.rows|].id
  {
  }

  lemma {:induction false} QueueRowsAppend(rows: seq<Row>, row: Row, queue: string)
    ensures QueueRows(rows + [row], queue)
         == QueueRows(rows, queue) + (if row.queue == queue then [row] else [])
  {
    if rows == [] {
      assert rows + [row] == [row];
    } else {
      assert (rows + [row])[1..] == rows[1..] + [row];
      QueueRowsAppend(rows[1..], row, queue);
    }
  }

  /** A committed enqueue adds one job at the end of its own queue and leaves every other queue as it was. */
  lemma EnqueueEffect(t: Table, queueName: string, data: string, fails: bool, other: string)
    requires Valid(t)
    requires other != queueName
    ensures Valid(Enqueue(t, queueName, data, fails).table)
    ensures var r := Enqueue(t, queueName, data, fails);
      && r.committed == !fails
      && QueueRows(r.table.rows, queueName)
         == QueueRows(t.rows, queueName) + (if fails then [] else [Row(t.nextId, queueName, data)])
      && QueueRows(r.table.rows, other) == QueueRows(t.rows, other)
      && Count(r.table, queueName) == Count(t, queueName) + (if fails then 0 else 1)
  {
    QueueRowsAppend(t.rows, Row(t.nextId, queueName, data), queueName);
    QueueRowsAppend(t.rows, Row(t.nextId, queueName, data), other);
  }

  // ---------------------------------------------------------------- dequeue

  /** A row the claim may pick: in the queue, and not locked by a concurrent transaction. */
  predicate Eligible(row: Row, queue: string, locked: set<nat>)
  {
    row.queue == queue && row.id !in locked
  }

  /** Position of the first eligible row, scanning in insertion order. */
  function FirstEligible(rows: seq<Row>, queue: string, locked: set<nat>): (r: Option<nat>)
    ensures r.Some? ==> r.value < |rows| && Eligible(rows[r.value], queue, locked)
    ensures r.Some? ==> forall k :: 0 <= k < r.value ==> !Eligible(rows[k], queue, locked)
    ensures r.None? <==> forall k :: 0 <= k < |rows| ==> !Eligible(rows[k], queue, locked)
  {
    if rows == [] then None
    else if Eligible(rows[0], queue, locked) then Some(0)
    else match FirstEligible(rows[1..], queue, locked)
      case None => None
      case Some(k) => Some(k + 1)
  }

  /** The row at position i deleted, the others kept in order. */
  function RemoveAt(rows: seq<Row>, i: nat): seq<Row>
    requires i < |rows|
  {
    rows[..i] + rows[i + 1..]
  }

  /** Where a claim transaction fails, if it does. */
  datatype Fault =
    | NoFault
    | StatementFails   // connecting (outside the try: nothing to roll back), BEGIN or the DELETE fails: the handler is not called and nothing is deleted
    | HandlerFails     // `perform` throws, or COMMIT fails after it returned

  /** The table afterwards, the row handed to `perform` (if any), and whether the transaction committed. */
  datatype Claim = Claim(table: Table, handled: Option<Row>, committed: bool)

  /**
   * `dequeue()`: one claim transaction for `queueName` while the transactions of
   * other consumers hold the rows with ids in `locked`.
   */
  function Dequeue(t: Table, queueName: string, locked: set<nat>, fault: Fault): (r: Claim)
    ensures !r.committed ==> r.table == t
    ensures r.handled.None? ==> r.table == t
    ensures fault == StatementFails ==> r.handled.None? && !r.committed
    ensures r.handled.Some? ==> r.handled.value in t.rows && Eligible(r.handled.value, queueName, locked)
    ensures |r.table.rows| == |t.rows| - (if r.committed && r.handled.Some? then 1 else 0)
  {
    if fault == StatementFails then Claim(t, None, false)
    else match FirstEligible(t.rows, queueName, locked)
      case None => Claim(t, None, true)
      case Some(i) =>
        if fault == HandlerFails then Claim(t, Some(t.rows[i]), false)
        else Claim(Table(RemoveAt(t.rows, i), t.nextId), Some(t.rows[i]), true)
  }

  /** ORDER BY id ... LIMIT 1: in a valid table the first eligible row has the lowest id of all eligible rows. */
  lemma FirstEligibleHasLowestId(t: Table, queue: string, locked: set<nat>)
    requires Valid(t)
    requires FirstEligible(t.rows, queue, locked).Some?
    ensures var i := FirstEligible(t.rows, queue, locked).value;
      forall k :: 0 <= k < |t.rows| && k != i && Eligible(t.rows[k], queue, locked) ==> t.rows[i].id < t.rows[k].id
  {
  }

  lemma RemoveAtValid(t: Table, i: nat)
    requires Valid(t) && i < |t.rows|
    ensures Valid(Table(RemoveAt(t.rows, i), t.nextId))
  {
    var r := RemoveAt(t.rows, i);
    assert forall k :: 0 <= k < |r| ==> r[k] == (if k < i then t.rows[k] else t.rows[k + 1]);
  }

  /**
   * The claim's outcome: it commits exactly when nothing fails, or when the handler
   * was never called; it fails to hand over a row only when none is eligible; the
   * table stays valid either way.
   */
  lemma DequeueEffect(t: Table, queueName: string, locked: set<nat>, fault: Fault)
    requires Valid(t)
    ensures var c := Dequeue(t, queueName, locked, fault);
      && Valid(c.table)
      && c.table.nextId == t.nextId
      && c.committed == (fault == NoFault || (fault == HandlerFails && c.handled.None?))
      && (fault != StatementFails && c.handled.None? ==>
            forall row :: row in t.rows ==> !Eligible(row, queueName, locked))
  {
    var c := Dequeue(t, queueName, locked, fault);
    if fault == NoFault && FirstEligible(t.rows, queueName, locked).Some? {
      RemoveAtValid(t, FirstEligible(t.rows, queueName, locked).value);
    }
  }

  /**
   * The row handed to `perform` is the lowest-id eligible row; a committed claim
   * deletes exactly that row and keeps all the others.
   */
  lemma DequeueClaimsLowest(t: Table, queueName: string, locked: set<nat>, fault: Fault)
    requires Valid(t)
    requires Dequeue(t, queueName, locked, fault).handled.Some?
    ensures var c := Dequeue(t, queueName, locked, fault);
      && (forall row :: row in t.rows && Eligible(row, queueName, locked) ==> c.handled.value.id <= row.id)
      && (c.committed ==> multiset(t.rows) == multiset(c.table.rows) + multiset{c.handled.value})
  {
    var c := Dequeue(t, queueName, locked, fault);
    var i := FirstEligible(t.rows, queueName, locked).value;
    assert c.handled.value == t.rows[i];
    FirstEligibleHasLowestId(t, queueName, locked);
    forall row | row in t.rows && Eligible(row, queueName, locked)
      ensures t.rows[i].id <= row.id
    {
      var k :| 0 <= k < |t.rows| && t.rows[k] == row;
    }
    if c.committed {
      RemoveAtMultiset(t.rows, i);
    }
  }

  lemma RemoveAtMultiset(rows: seq<Row>, i: nat)
    requires i < |rows|
    ensures multiset(rows) == multiset(RemoveAt(rows, i)) + multiset{rows[i]}
  {
    assert rows == rows[..i] + [rows[i]] + rows[i + 1..];
  }

  /**
   * What the COUNT query sees after a claim: a committed claim that handed over a row
   * lowers the count of its queue by one, and leaves every other queue's count alone.
   */
  lemma DequeueCount(t: Table, queueName: string, locked: set<nat>, fault: Fault, other: string)
    requires other != queueName
    ensures var c := Dequeue(t, queueName, locked, fault);
      && Count(c.table, queueName) == Count(t, queueName) - (if c.committed && c.handled.Some? then 1 else 0)
      && Count(c.table, other) == Count(t, other)
  {
    var c := Dequeue(t, queueName, locked, fault);
    if c.committed && c.handled.Some? {
      var i := FirstEligible(t.rows, queueName, locked).value;
      var rows := t.rows;
      assert rows == rows[..i] + ([rows[i]] + rows[i + 1..]);
      assert c.table.rows == rows[..i] + rows[i + 1..];
      forall q | q == queueName || q == other
        ensures |QueueRows(rows, q)| == |QueueRows(c.table.rows, q)| + (if q == queueName then 1 else 0)
      {
        QueueRowsConcat(rows[..i], [rows[i]] + rows[i + 1..], q);
        QueueRowsConcat([rows[i]], rows[i + 1..], q);
        QueueRowsConcat(rows[..i], rows[i + 1..], q);
        assert QueueRows([rows[i]], q) == (if rows[i].queue == q then [rows[i]] else []);
      }
    }
  }

  /** Redelivery: a row whose handler failed is the one the next claim picks again. */
  lemma FailedJobIsRedelivered(t: Table, queueName: string, locked: set<nat>, next: Fault)
    requires Dequeue(t, queueName, locked, HandlerFails).handled.Some?
    requires next != StatementFails
    ensures var first := Dequeue(t, queueName, locked, HandlerFails);
      Dequeue(first.table, queueName, locked, next).handled == first.handled
  {
  }

  /**
   * No double claim: while a first consumer's transaction holds its row locked, a second
   * consumer claims a different row with a higher id, or none when only locked rows remain.
   */
  lemma ConcurrentClaimsAreDistinct(t: Table, queueName: string, locked: set<nat>)
    requires Valid(t)
    requires Dequeue(t, queueName, locked, NoFault).handled.Some?
    ensures var first := Dequeue(t, queueName, locked, NoFault).handled.value;
      var second := Dequeue(t, queueName, locked + {first.id}, NoFault).handled;
      second.Some? ==> second.value.id > first.id
  {
    var i := FirstEligible(t.rows, queueName, locked).value;
    var second := FirstEligible(t.rows, queueName, locked + {t.rows[i].id});
    if second.Some? {
      FirstEligibleHasLowestId(t, queueName, locked);
      assert Eligible(t.rows[second.value], queueName, locked);
    }
  }

  // ---------------------------------------------------------------- FIFO order

  lemma {:induction false} QueueRowsConcat(a: seq<Row>, b: seq<Row>, queue: string)
    ensures QueueRows(a + b, queue) == QueueRows(a, queue) + QueueRows(b, queue)
  {
    if a == [] {
      assert a + b == b;
    } else {
      assert (a + b)[1..] == a[1..] + b;
      QueueRowsConcat(a[1..], b, queue);
    }
  }

  lemma {:induction false} QueueRowsOfOthers(a: seq<Row>, queue: string)
    requires forall k :: 0 <= k < |a| ==> a[k].queue != queue
    ensures QueueRows(a, queue) == []
  {
    if a != [] {
      QueueRowsOfOthers(a[1..], queue);
    }
  }

  /** Removing the first row of a queue removes the head of that queue's rows. */
  lemma {:induction false} QueueRowsRemoveFirst(rows: seq<Row>, queue: string, i: nat)
    requires i < |rows| && rows[i].queue == queue
    requires forall k :: 0 <= k < i ==> rows[k].queue != queue
    ensures QueueRows(rows, queue) == [rows[i]] + QueueRows(RemoveAt(rows, i), queue)
    decreases i
  {
    if i == 0 {
      assert RemoveAt(rows, 0) == rows[1..];
    } else {
      var tail := rows[1..];
      QueueRowsRemoveFirst(tail, queue, i - 1);
      var removed := RemoveAt(rows, i);
      assert removed[0] == rows[0] && removed[1..] == RemoveAt(tail, i - 1);
    }
  }

  lemma FirstEligibleUnlocked(rows: seq<Row>, queue: string)
    requires QueueRows(rows, queue) != []
    ensures var i := FirstEligible(rows, queue, {});
      && i.Some? && rows[i.value] == QueueRows(rows, queue)[0]
      && QueueRows(RemoveAt(rows, i.value), queue) == QueueRows(rows, queue)[1..]
  {
    QueueRowsEmptyIff(rows, queue);
    var j :| 0 <= j < |rows| && rows[j].queue == queue;
    assert Eligible(rows[j], queue, {});
    var i := FirstEligible(rows, queue, {}).value;
    assert forall k :: 0 <= k < i ==> !Eligible(rows[k], queue, {});
    QueueRowsRemoveFirst(rows, queue, i);
  }

  /** With no concurrent consumer, a successful claim takes the oldest job of the queue. */
  lemma DequeueTakesOldest(t: Table, queueName: string)
    requires QueueRows(t.rows, queueName) != []
    ensures var c := Dequeue(t, queueName, {}, NoFault);
      && c.handled == Some(QueueRows(t.rows, queueName)[0])
      && QueueRows(c.table.rows, queueName) == QueueRows(t.rows, queueName)[1..]
  {
    FirstEligibleUnlocked(t.rows, queueName);
  }

  /** Payloads handed to the handler by n successful claims in a row, with no concurrent consumer. */
  function Drain(t: Table, queueName: string, n: nat): seq<string>
    decreases n
  {
    if n == 0 then []
    else
      var c := Dequeue(t, queueName, {}, NoFault);
      match c.handled
      case None => []
      case Some(row) => [row.data] + Drain(c.table, queueName, n - 1)
  }

  function Payloads(rows: seq<Row>): (r: seq<string>)
    ensures |r| == |rows|
    ensures forall k :: 0 <= k < |rows| ==> r[k] == rows[k].data
  {
    if rows == [] then [] else [rows[0].data] + Payloads(rows[1..])
  }

  /** Draining hands over the queue's payloads in insertion order, the first n of them. */
  lemma {:induction false} DrainInOrder(t: Table, queueName: string, n: nat)
    requires n <= |QueueRows(t.rows, queueName)|
    ensures Drain(t, queueName, n) == Payloads(QueueRows(t.rows, queueName)[..n])
    decreases n
  {
    var q := QueueRows(t.rows, queueName);
    if n > 0 {
      DequeueTakesOldest(t, queueName);
      var c := Dequeue(t, queueName, {}, NoFault);
      assert c.handled == Some(q[0]);
      DrainInOrder(c.table, queueName, n - 1);
      assert Drain(t, queueName, n) == [q[0].data] + Payloads(q[1..][..n - 1]);
      var prefix := q[..n];
      assert prefix[0] == q[0] && prefix[1..] == q[1..][..n - 1];
      assert Payloads(prefix) == [prefix[0].data] + Payloads(prefix[1..]);
    }
  }

  /** The table after each payload is enqueued, in order, to one queue, all committing. */
  function EnqueueAll(t: Table, queueName: string, payloads: seq<string>): Table
    decreases |payloads|
  {
    if payloads == [] then t
    else EnqueueAll(Insert(t, queueName, payloads[0]), queueName, payloads[1..])
  }

  lemma {:induction false} EnqueueAllAppends(t: Table, queueName: string, payloads: seq<string>)
    ensures Payloads(QueueRows(EnqueueAll(t, queueName, payloads).rows, queueName))
         == Payloads(QueueRows(t.rows, queueName)) + payloads
    decreases |payloads|
  {
    if payloads != [] {
      var row := Row(t.nextId, queueName, payloads[0]);
      QueueRowsAppend(t.rows, row, queueName);
      EnqueueAllAppends(Insert(t, queueName, payloads[0]), queueName, payloads[1..]);
      PayloadsAppend(QueueRows(t.rows, queueName), [row]);
      assert payloads == [payloads[0]] + payloads[1..];
    }
  }

  lemma {:induction false} PayloadsAppend(a: seq<Row>, b: seq<Row>)
    ensures Payloads(a + b) == Payloads(a) + Payloads(b)
  {
    if a == [] {
      assert a + b == b;
    } else {
      assert (a + b)[1..] == a[1..] + b;
      PayloadsAppend(a[1..], b);
    }
  }

  /**
   * FIFO: jobs enqueued by one producer, each committing before the next starts, to a
   * queue holding no jobs are handed to the handler in the order they were enqueued,
   * each exactly once, when one consumer drains the queue.
   */
  lemma FifoDelivery(t: Table, queueName: string, payloads: seq<string>)
    requires QueueRows(t.rows, queueName) == []
    ensures Drain(EnqueueAll(t, queueName, payloads), queueName, |payloads|) == payloads
  {
    var t' := EnqueueAll(t, queueName, payloads);
    EnqueueAllAppends(t, queueName, payloads);
    var q := QueueRows(t'.rows, queueName);
    assert Payloads(q) == payloads;
    DrainInOrder(t', queueName, |payloads|);
    assert q[..|payloads|] == q;
  }
}
