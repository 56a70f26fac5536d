/**
 * The queue engine of src/PgQueue.ts as an object whose fields its methods
 * update: the running/stopped flag, the number of dequeues in flight, the cached
 * queue-size estimate and the time it was last refreshed.
 *
 * Clock readings, the result of the COUNT query and the success of `migrate` are
 * parameters. A dispatched dequeue runs on its own; its completion, successful or
 * not, is the explicit event `Complete`. Each dispatch issues a ghost ticket, and
 * the object invariant ties the in-flight count to the set of tickets not yet
 * completed, so the counter always equals the number of outstanding dequeues.
 */
module Poller {
  import opened Wrappers
  import opened Config

  /** Minimum time, in milliseconds, between two COUNT queries of `estimateQueueSize`. */
  const EstimateInterval: int := 100

  /** The in-flight count the dispatch loop can reach: maxConcurrency, or 0 if that is negative. */
  function Ceiling(maxConcurrency: int): nat
  {
    if maxConcurrency < 0 then 0 else maxConcurrency
  }

  /** Whether `estimateQueueSize` runs the COUNT query at time `now`, or returns at once. */
  predicate EstimateDue(lastEstimateDate: int, now: int)
  {
    now - lastEstimateDate >= EstimateInterval
  }

  /** `after` is `before` together with the tickets from `lo` up to, not including, `hi`. */
  ghost predicate AddsTickets(before: set<nat>, after: set<nat>, lo: nat, hi: nat)
  {
    forall t :: t in after <==> t in before || lo <= t < hi
  }

  class PgQueue {
    const tableName: string
    const queueName: string
    const maxConcurrency: int
    const pool: Option<PoolConfig>
    const pollingInterval: int

    var concurrency: int
    var estimatedQueueSize: int
    var lastEstimateDate: int
    var stopped: bool

    /** The dequeues dispatched and not yet completed. */
    ghost var outstanding: set<nat>
    /** The number of dequeues ever dispatched; tickets are numbered from 0. */
    ghost var issued: nat

    ghost predicate Valid()
      reads this
    {
      && concurrency == |outstanding|
      && (forall t :: t in outstanding ==> t < issued)
      && concurrency <= Ceiling(maxConcurrency)
      && estimatedQueueSize >= 0
      && |queueName| <= MaxQueueNameLength
      && pollingInterval == 100
    }

    /** The constructor once the settings are resolved and the queue name passed the assertion. */
    constructor (settings: Settings)
      requires |settings.queueName| <= MaxQueueNameLength
      ensures Valid()
      ensures tableName == settings.tableName && queueName == settings.queueName
      ensures maxConcurrency == settings.maxConcurrency && pool == settings.pool
      ensures stopped && concurrency == 0 && estimatedQueueSize == 0 && lastEstimateDate == 0
      ensures outstanding == {} && issued == 0
    {
      tableName := settings.tableName;
      queueName := settings.queueName;
      maxConcurrency := settings.maxConcurrency;
      pool := settings.pool;
      pollingInterval := 100;
      concurrency := 0;
      estimatedQueueSize := 0;
      lastEstimateDate := 0;
      stopped := true;
      outstanding := {};
      issued := 0;
    }

    /** `new PgQueue(opts)`: throws when the effective queue name is longer than 255 characters. */
    static method Create(opts: Option<Options>) returns (r: Result<PgQueue, ConfigError>)
      ensures r.Failure? <==> |QueueNameOf(opts)| > MaxQueueNameLength
      ensures r.Failure? ==> r == Failure(AssertionError(QueueNameMessage))
      ensures r.Success? ==> fresh(r.value) && r.value.Valid() && r.value.stopped
      ensures r.Success? ==> Construct(opts) == Success(Settings(r.value.tableName, r.value.queueName, r.value.maxConcurrency, r.value.pool))
      ensures r.Success? ==> r.value.concurrency == 0 && r.value.estimatedQueueSize == 0 && r.value.lastEstimateDate == 0
      ensures r.Success? ==> r.value.outstanding == {} && r.value.issued == 0
    {
      match Construct(opts)
      case Failure(e) =>
        r := Failure(e);
      case Success(settings) =>
        var q := new PgQueue(settings);
        r := Success(q);
    }

    /** `start()`: marks the queue running; polling is scheduled only if `migrate` succeeds. */
    method Start(migrated: bool) returns (scheduled: bool)
      requires Valid()
      modifies this
      ensures Valid() && !stopped
      ensures scheduled == migrated
      ensures concurrency == old(concurrency) && estimatedQueueSize == old(estimatedQueueSize)
      ensures lastEstimateDate == old(lastEstimateDate)
      ensures outstanding == old(outstanding) && issued == old(issued)
    {
      stopped := false;
      if migrated {
        scheduled := SchedulePolling();
      } else {
        scheduled := false;
      }
    }

    /** `stop()`: marks the queue stopped; dequeues in flight still complete. */
    method Stop()
      requires Valid()
      modifies this
      ensures Valid() && stopped
      ensures concurrency == old(concurrency) && estimatedQueueSize == old(estimatedQueueSize)
      ensures lastEstimateDate == old(lastEstimateDate)
      ensures outstanding == old(outstanding) && issued == old(issued)
    {
      stopped := true;
    }

    /** `schedulePolling()`: a timer for the next poll is set exactly when the queue is running. */
    method SchedulePolling() returns (scheduled: bool)
      ensures scheduled == !stopped
    {
      scheduled := !stopped;
    }

    /**
     * The dispatch loop of `poll`: while the estimate is positive and fewer than
     * maxConcurrency dequeues are in flight, take one from the estimate and start one dequeue.
     */
    method Dispatch() returns (dispatched: nat)
      requires Valid()
      modifies this
      ensures Valid()
      ensures dispatched == old(estimatedQueueSize) - estimatedQueueSize
      ensures dispatched == concurrency - old(concurrency)
      ensures estimatedQueueSize <= 0 || concurrency >= maxConcurrency
      ensures old(concurrency) <= maxConcurrency ==> concurrency <= maxConcurrency
      ensures old(concurrency) <= maxConcurrency ==> estimatedQueueSize <= 0 || concurrency == maxConcurrency
      ensures issued == old(issued) + dispatched
      ensures AddsTickets(old(outstanding), outstanding, old(issued), issued)
      ensures stopped == old(stopped) && lastEstimateDate == old(lastEstimateDate)
    {
      dispatched := 0;
      while estimatedQueueSize > 0 && concurrency < maxConcurrency
        invariant Valid()
        invariant dispatched == old(estimatedQueueSize) - estimatedQueueSize
        invariant dispatched == concurrency - old(concurrency)
        invariant issued == old(issued) + dispatched
        invariant AddsTickets(old(outstanding), outstanding, old(issued), issued)
        invariant stopped == old(stopped) && lastEstimateDate == old(lastEstimateDate)
        decreases estimatedQueueSize
      {
        estimatedQueueSize := estimatedQueueSize - 1;
        concurrency := concurrency + 1;
        outstanding := outstanding + {issued};
        issued := issued + 1;
        dispatched := dispatched + 1;
      }
    }

    /** The `finally` of a dispatched dequeue: its completion, success or failure, takes it out of flight. */
    method Complete(ghost ticket: nat)
      requires Valid()
      requires ticket in outstanding
      modifies this
      ensures Valid()
      ensures concurrency == old(concurrency) - 1 && concurrency >= 0
      ensures outstanding == old(outstanding) - {ticket} && issued == old(issued)
      ensures estimatedQueueSize == old(estimatedQueueSize) && lastEstimateDate == old(lastEstimateDate)
      ensures stopped == old(stopped)
    {
      concurrency := concurrency - 1;
      outstanding := outstanding - {ticket};
    }

    /**
     * `estimateQueueSize()` at time `now`: within 100 ms of the last refresh it does
     * nothing. Otherwise it runs the COUNT query (`count`, None when connecting or the
     * query fails, and the error propagates: `ok` is false) and raises the estimate to
     * the count if the count is larger, recording `doneAt`, the time the query returned.
     */
    method EstimateQueueSize(now: int, doneAt: int, count: Option<nat>) returns (ok: bool)
      requires Valid()
      modifies this
      ensures Valid()
      ensures ok == (!EstimateDue(old(lastEstimateDate), now) || count.Some?)
      ensures estimatedQueueSize >= old(estimatedQueueSize)
      ensures !(EstimateDue(old(lastEstimateDate), now) && count.Some?) ==>
                estimatedQueueSize == old(estimatedQueueSize) && lastEstimateDate == old(lastEstimateDate)
      ensures EstimateDue(old(lastEstimateDate), now) && count.Some? ==>
                && lastEstimateDate == doneAt
                && estimatedQueueSize >= count.value
                && (estimatedQueueSize == old(estimatedQueueSize) || estimatedQueueSize == count.value)
      ensures concurrency == old(concurrency) && stopped == old(stopped)
      ensures outstanding == old(outstanding) && issued == old(issued)
    {
      if now - lastEstimateDate < EstimateInterval {
        return true;
      }
      match count
      case None =>
        ok := false;
      case Some(queueSize) =>
        if queueSize > estimatedQueueSize {
          estimatedQueueSize := queueSize;
        }
        lastEstimateDate := doneAt;
        ok := true;
    }

    /**
     * `poll()`: nothing at all when stopped. Otherwise the dispatch loop, then the
     * estimate refresh, then the next poll is scheduled; when the refresh throws, `poll`
     * rejects before scheduling, and no further poll follows.
     */
    method Poll(now: int, doneAt: int, count: Option<nat>) returns (dispatched: nat, scheduled: bool)
      requires Valid()
      modifies this
      ensures Valid()
      ensures old(stopped) ==>
                && dispatched == 0 && !scheduled
                && concurrency == old(concurrency) && estimatedQueueSize == old(estimatedQueueSize)
                && lastEstimateDate == old(lastEstimateDate) && stopped
                && outstanding == old(outstanding) && issued == old(issued)
      ensures !old(stopped) ==>
                && !stopped
                && concurrency == old(concurrency) + dispatched
                && dispatched <= old(estimatedQueueSize)
                && (old(estimatedQueueSize) - dispatched <= 0 || concurrency >= maxConcurrency)
                && issued == old(issued) + dispatched
                && AddsTickets(old(outstanding), outstanding, old(issued), issued)
                && scheduled == (!EstimateDue(old(lastEstimateDate), now) || count.Some?)
                && estimatedQueueSize >= old(estimatedQueueSize) - dispatched
                && (!(EstimateDue(old(lastEstimateDate), now) && count.Some?) ==>
                      estimatedQueueSize == old(estimatedQueueSize) - dispatched
                      && lastEstimateDate == old(lastEstimateDate))
                && (EstimateDue(old(lastEstimateDate), now) && count.Some? ==>
                      && lastEstimateDate == doneAt
                      && estimatedQueueSize >= count.value
                      && (estimatedQueueSize == old(estimatedQueueSize) - dispatched || estimatedQueueSize == count.value))
    {
      if stopped {
        return 0, false;
      }
      dispatched := Dispatch();
      var ok := EstimateQueueSize(now, doneAt, count);
      if ok {
        scheduled := SchedulePolling();
      } else {
        scheduled := false;
      }
    }
  }

  /**
   * A run of the engine with maxConcurrency 2 and five jobs waiting: the first poll
   * after `start` finds the estimate at 0 and dispatches nothing, then learns the count;
   * the next poll, 95 ms after that refresh, dispatches two and keeps the lowered
   * estimate; a third poll, with both still in flight, dispatches none; once one
   * completes, the fourth dispatches one more.
   */
  method PacingExample() returns (first: nat, second: nat, third: nat, fourth: nat)
    ensures first == 0 && second == 2 && third == 0 && fourth == 1
  {
    var opts := Options(None, Some(2), None, None, None);
    var created := PgQueue.Create(Some(opts));
    assert |QueueNameOf(Some(opts))| == 7;
    var q := created.value;
    var scheduled := q.Start(true);
    first, scheduled := q.Poll(1000, 1005, Some(5));
    assert q.estimatedQueueSize == 5;
    second, scheduled := q.Poll(1100, 1105, Some(5));
    assert q.concurrency == 2 && q.estimatedQueueSize == 3;
    third, scheduled := q.Poll(1150, 1150, Some(3));
    assert 0 in q.outstanding;
    q.Complete(0);
    fourth, scheduled := q.Poll(1200, 1200, Some(3));
  }
}
