# pg-queue, modelled in Dafny

pg-queue is a small job queue kept in one PostgreSQL table. Producers `enqueue`
JSON payloads under the queue's name. A running `PgQueue` polls the table: it
keeps a cached estimate of the queue size, starts up to `maxConcurrency` claim
transactions at a time, and hands each claimed payload to the user's `perform`
inside the claim transaction. The transaction commits only if `perform` returns
normally, so a failed job stays in the table and is delivered again.

This project models the queue engine, `src/PgQueue.ts`. It has six modules:

- `Wrappers` (wrappers.dfy): `Option` and `Result`.
- `Quoting` (quoting.dfy): the identifier quoting helper `e`. The name goes in
  double quotes and every embedded double quote is doubled (section 4.1.1 of the
  PostgreSQL documentation, "Identifiers and Key Words"). Its partners are an
  inverse, `Unquote`, and a scanner that reads a delimited identifier the way the
  SQL lexer does. The proofs give the length and shape of the result, the round
  trip in both directions, injectivity, and self-delimitation: whatever text
  follows, the lexer reads exactly the name back, as long as that text does not
  start with a quote.
- `Config` (config.dfy): the constructor. Options fall back to their defaults
  through JavaScript's `||`, so absent, `''` and `0` all take the default, and a
  negative `maxConcurrency` is kept. The effective queue name must then be at most
  255 characters long; otherwise the constructor throws an `AssertionError` with
  the message `queueName must be less or equal to 255`.
- `JobTable` (job_table.dfy): what `enqueue`, the claim transaction of
  `dequeue` and the COUNT query do to the job table, seen as a sequence of rows
  with increasing ids. `enqueue` takes only the payload and always inserts under
  the configured queue name. The claim always orders by id: it takes the
  lowest-id row of the queue that is not locked by another transaction, deletes
  it and commits, or rolls back when `perform` fails. Proved: the claim takes the
  lowest id, rollback leaves the table unchanged, a failed job is redelivered, two
  concurrent claims never take the same row, and jobs from one producer reach one
  consumer in FIFO order.
- `SqlText` (sql_text.dfy): the table name as it appears in the statement text,
  and which relation PostgreSQL reads it as. `migrate` is a single
  `CREATE TABLE IF NOT EXISTS`. See "## Findings".
- `Poller` (poller.dfy): the class `PgQueue`. It has the fields `concurrency`,
  `estimatedQueueSize`, `lastEstimateDate` and `stopped`, and its methods `Start`,
  `Stop`, `Poll` (the dispatch loop `Dispatch`, then `EstimateQueueSize`, then
  `SchedulePolling`) and `Complete`. Clock readings, the COUNT result and the
  outcome of `migrate` are parameters. The completion of a dispatched dequeue is
  the explicit event `Complete`. Each dispatch issues a ghost ticket. The object
  invariant keeps `concurrency` equal to the number of tickets not yet completed,
  never negative, and never above `maxConcurrency` (or above 0 when
  `maxConcurrency` is negative). The polling interval is a literal 100 ms, and so
  is the throttle on refreshing the estimate. An error from the COUNT query, or
  from connecting for it, is not sent to the error channel: it rejects `poll`
  before the next poll is scheduled, so polling stops while `stopped` stays false.
  `Poll` returns `scheduled == false` in that case.

## Model

| member | source | states |
|---|---|---|
| Quoting.QuoteIdentifier | src/PgQueue.ts:5-7 | `e(name)` begins and ends with a double quote, and its interior is the escaped name |
| Quoting.Escape | src/PgQueue.ts:6 | `name.replace(/"/g, '""')`, character by character; what it guarantees is stated by EscapeLength, EscapeAppend, EscapeNoQuote and UnescapeEscape below |
| Quoting.EscapeLength | src/PgQueue.ts:6 | `name.replace(/"/g, '""')` is as long as the name plus the number of quotes in it |
| Quoting.QuoteIdentifierLength | src/PgQueue.ts:5-7 | `e(name)` has length `|name| + 2 + (number of '"' in name)` |
| Quoting.EscapeAppend | src/PgQueue.ts:6 | the global replace works character by character: escaping distributes over concatenation |
| Quoting.EscapeNoQuote | src/PgQueue.ts:6 | a name without quotes is not changed by the replace, so `e` only wraps it |
| Quoting.UnescapeEscape | src/PgQueue.ts:6 | collapsing each `""` of the escaped name gives back the name |
| Quoting.EscapeUnescape | src/PgQueue.ts:6 | every body that collapses without a lone quote is the escaping of what it collapses to |
| Quoting.UnquoteQuote | src/PgQueue.ts:5-7 | round trip: stripping the quotes of `e(name)` and collapsing each `""` yields `name` |
| Quoting.UnquoteSound | src/PgQueue.ts:5-7 | whatever `Unquote` accepts is `e` of what it returns |
| Quoting.UnquoteIff | src/PgQueue.ts:5-7 | `Unquote(q) == Some(name)` exactly when `q == e(name)` (both directions) |
| Quoting.QuoteIdentifierInjective | src/PgQueue.ts:5-7 | distinct names give distinct quoted identifiers |
| Quoting.LexQuoteIdentifierIff | src/PgQueue.ts:5-7 | the SQL lexer reads `(name, rest)` from a text exactly when the text is `e(name)` followed by a `rest` that does not start with a quote |
| Quoting.QuotedBodyHasNoLoneQuote | src/PgQueue.ts:5-7 | the interior of `e(name)` has no lone quote: the lexer's identifier ends at the final character |
| Config.Construct | src/PgQueue.ts:29-46 | a constructed queue has a non-empty table name, a queue name of 1 to 255 characters and a non-zero maxConcurrency |
| Config.ConstructFailsIff | src/PgQueue.ts:42-45 | construction throws an `AssertionError` with message `queueName must be less or equal to 255` exactly when the effective queue name has more than 255 characters |
| Config.ConstructWithoutOptions | src/PgQueue.ts:29-41 | with no options object, the settings are `'__pg_queue_jobs'`, `'default'`, 10 and no pool options, and construction succeeds |
| Config.FalsyTableNameTakesDefault | src/PgQueue.ts:31 | an absent or empty tableName becomes `'__pg_queue_jobs'`, whatever the other options are |
| Config.FalsyQueueNameTakesDefault | src/PgQueue.ts:32-45 | an absent or empty queueName becomes `'default'`, and construction then succeeds |
| Config.FalsyMaxConcurrencyTakesDefault | src/PgQueue.ts:33 | an absent or zero maxConcurrency becomes 10, whatever the other options are |
| Config.TruthyOptionsAreKept | src/PgQueue.ts:31-41 | truthy option values are kept as given, negative numbers included; the pool gets `{connectionString, max}` unchanged |
| JobTable.Count | src/PgQueue.ts:139-145 | the COUNT is at most the number of rows, and is 0 exactly when no row belongs to the queue |
| JobTable.Enqueue | src/PgQueue.ts:116-131 | a committed enqueue appends exactly one row, with the queue's own name and the payload, keeping every earlier row; a failed one rolls back, leaves the table as it was and reports failure; ids stay increasing |
| JobTable.InsertValid | src/PgQueue.ts:120-123 | an INSERT keeps ids increasing, and the new row's id is greater than every earlier id |
| JobTable.EnqueueEffect | src/PgQueue.ts:116-131 | a committed enqueue appends one job to the end of its queue and leaves other queues alone; a failed one rolls back and changes nothing |
| JobTable.Dequeue | src/PgQueue.ts:80-109 | a rolled-back claim, or one that found no row, leaves the table as it was; a failing statement hands nothing over and does not commit; the row handed over is an eligible row of the table; a committed claim that handed over a row removes exactly one row |
| JobTable.FirstEligible | src/PgQueue.ts:87-93 | the candidate is the first row of the queue not locked by another transaction; none exactly when no such row exists |
| JobTable.FirstEligibleHasLowestId | src/PgQueue.ts:91-93 | ORDER BY id LIMIT 1: the candidate has the lowest id among the eligible rows |
| JobTable.DequeueEffect | src/PgQueue.ts:80-109 | the claim commits exactly when nothing fails, or when `perform` was never called because no row was eligible; it hands nothing over, without a failing statement, only when no row of the queue is eligible; ids stay increasing and the id sequence is untouched |
| JobTable.DequeueClaimsLowest | src/PgQueue.ts:85-102 | the row handed to `perform` is the lowest-id row of the queue not locked elsewhere; a committed claim deletes exactly that row and keeps every other |
| JobTable.DequeueCount | src/PgQueue.ts:85-102 | a committed claim that handed over a job lowers its queue's COUNT by one; other queues' counts are unchanged |
| JobTable.FailedJobIsRedelivered | src/PgQueue.ts:99-105 | when `perform` throws, the next claim hands over the same job again |
| JobTable.ConcurrentClaimsAreDistinct | src/PgQueue.ts:86-95 | FOR UPDATE SKIP LOCKED: a second claim made while the first holds its row takes a row with a higher id, never the same one |
| JobTable.DequeueTakesOldest | src/PgQueue.ts:85-101 | with no concurrent consumer, a claim takes the oldest job of the queue and the queue loses exactly that job |
| JobTable.DrainInOrder | src/PgQueue.ts:80-109 | n successive claims hand over the queue's first n payloads in insertion order |
| JobTable.EnqueueAllAppends | src/PgQueue.ts:116-131 | successive enqueues append their payloads, in order, to the queue |
| JobTable.FifoDelivery | src/PgQueue.ts:80-131 | jobs enqueued by one producer to an empty queue reach the handler once each, in enqueue order, when one consumer drains it |
| SqlText.InsertSql | src/PgQueue.ts:121 | the INSERT names the relation whose name is exactly the configured table name, whatever characters it holds |
| SqlText.MigrateSql | src/PgQueue.ts:155-159 | with the name quoted, `migrate` creates relation `tableName`, the very relation the INSERT uses, for every table name |
| SqlText.MigrateSqlAsWritten | src/PgQueue.ts:157 | `migrate` as written creates relation `tableName` when the table name is a plain lower-case identifier, such as the default |
| SqlText.MigrateAsWrittenFoldsCase | src/PgQueue.ts:157 | `migrate` as written creates relation `jobs` for table name `Jobs`, while the INSERT goes to `Jobs` |
| Poller.PgQueue.constructor | src/PgQueue.ts:18-46 | a new queue is stopped, with no dequeue in flight, estimate 0, last estimate time 0, and the resolved settings |
| Poller.PgQueue.Create | src/PgQueue.ts:29-46 | `new PgQueue(opts)` throws an `AssertionError` with message `queueName must be less or equal to 255` exactly when the effective queue name is longer than 255; otherwise it gives a valid stopped queue with the resolved settings |
| Poller.PgQueue.Start | src/PgQueue.ts:50-55 | `start` marks the queue running; the first poll is scheduled exactly when `migrate` succeeds; the counters are unchanged |
| Poller.PgQueue.Stop | src/PgQueue.ts:111-114 | `stop` marks the queue stopped; the counters and the dequeues in flight are unchanged |
| Poller.PgQueue.SchedulePolling | src/PgQueue.ts:75-78 | a timer for the next poll is set exactly when the queue is not stopped |
| Poller.PgQueue.Dispatch | src/PgQueue.ts:62-69 | the number of dispatches equals the drop in the estimate and the rise in concurrency; on exit the estimate is at most 0 or concurrency has reached maxConcurrency; starting at or below maxConcurrency it ends at or below it; one new outstanding ticket per dispatch |
| Poller.PgQueue.Complete | src/PgQueue.ts:68 | the completion of a dispatched dequeue, success or failure, lowers concurrency by one, once per ticket, never below zero |
| Poller.PgQueue.EstimateQueueSize | src/PgQueue.ts:133-153 | within 100 ms of the last refresh nothing changes; otherwise the estimate becomes the larger of itself and the count and the refresh time is recorded; a failed query changes nothing and throws; the estimate never decreases |
| Poller.PgQueue.Poll | src/PgQueue.ts:57-73 | a stopped queue changes nothing and dispatches nothing; a running one dispatches as `Dispatch` does, refreshes as `EstimateQueueSize` does, and schedules the next poll unless the refresh threw |
| Poller.PacingExample | src/PgQueue.ts:57-78 | with maxConcurrency 2 and five jobs: the first poll dispatches 0 because the estimate starts at 0, the next 2, a poll with both in flight 0, and after one completion 1 more |

## Left out

- The `pg` pool and its connections are not modelled: connecting, BEGIN/COMMIT/ROLLBACK, `pool.end()` in `stop`, and the `pool.on('error')` listener. Their failures appear only as the `Fault` of a claim, the `fails` flag of an enqueue, a `None` COUNT result, and the `migrated` flag of `Start`.
- EventEmitter error reporting (`this.emit('error', e)`) has no state to model. A claim whose BEGIN, DELETE, `perform` or COMMIT fails shows only as a rolled-back `Claim`. `pool.connect()` in `dequeue` (line 81) is outside the `try`: when it fails nothing is rolled back or emitted, the promise of `dequeue` rejects, and the `.finally` on line 68 lowers `concurrency` and passes the rejection on unhandled. The model shows this as a `StatementFails` claim, which leaves the table as it was; the unhandled rejection is not modelled.
- `JSON.stringify` of the payload and the JSON column's parsing are not modelled. A payload is kept as its JSON text.
- `setTimeout` and `new Date()` are not modelled. Scheduling is the `scheduled` result, and clock readings are parameters. The timer callback tests `stopped` before calling `poll`, which is the same test `Poll` makes first.
- Poller.PgQueue.Poll: runs as one step. A dequeue completing, or `stop` being called, during the awaits inside `poll` is modelled only between two polls.
- Calling `start` twice starts two timer chains; the model does not count pending timers.
- The abstract `perform` is not modelled: only whether it returns or throws. Its own writes inside the claim transaction are not modelled.
- JavaScript numbers are modelled as integers, so `NaN` (falsy) and a fractional `maxConcurrency` are not covered. The COUNT result is a natural number, standing for `parseInt` of the count.
- Config.ConstructFailsIff: counts the queue name in Unicode characters. JavaScript's `.length` counts UTF-16 code units, so names with characters outside the Basic Multilingual Plane differ.
- SqlText models only the INSERT and CREATE TABLE texts. The claim DELETE and the COUNT name the table through `e` in the same way (lines 86, 89 and 141). PostgreSQL's truncation of identifiers to 63 bytes is not modelled. Reserved key words (`user`, `table`) are read as ordinary names by `LexName`, and the empty delimited identifier `""`, which PostgreSQL rejects, is accepted by `ScanDelimited`.
- JobTable: concurrent producers are not modelled. Each enqueue is one atomic step, so ids increase in commit order. In PostgreSQL two concurrent enqueues can commit in the other order than they took their ids, and a claim may then see a later row before an earlier one commits. DrainInOrder and FifoDelivery assume one producer whose enqueues have committed.
- JobTable: locks held by concurrent transactions are a set of row ids; the locking protocol itself is not modelled. A rolled-back INSERT leaves the id sequence as it was, whereas PostgreSQL's sequence would still advance. Ids stay increasing either way.
- test/PgQueue.test.ts and test/benchmark.ts are throughput runs against a live database with no assertions; they are not modelled.

## Findings

| source | as written | input that shows it | evidently intended | confidence | as-written member | corrected member |
|---|---|---|---|---|---|---|
| src/PgQueue.ts:157 | `migrate` puts the table name into CREATE TABLE unquoted, while every other statement quotes it with `e` | tableName `Jobs`: `migrate` creates relation `jobs` (case folded), but enqueue, dequeue and the count use relation `"Jobs"`, which does not exist | quote the name with `e(this.tableName)` in `migrate` too | high (not executed) | SqlText.MigrateAsWrittenFoldsCase | SqlText.MigrateSql |
