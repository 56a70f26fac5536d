/**
 * Construction of a queue (the PgQueue constructor, src/PgQueue.ts:29-46):
 * each option falls back to its default through JavaScript's `||`, so an absent
 * option and a falsy one (the empty string, the number 0) both take the default;
 * then the effective queue name is asserted to be at most 255 characters long.
 */
module Config {
  import opened Wrappers

  const DefaultTableName: string := "__pg_queue_jobs"
  const DefaultQueueName: string := "default"
  const DefaultMaxConcurrency: int := 10
  const MaxQueueNameLength: nat := 255

  /** The `Options` interface; every member may be left undefined. */
  datatype Options = Options(
    connectionString: Option<string>,
    maxConcurrency: Option<int>,
    maxTransactionConcurrency: Option<int>,
    queueName: Option<string>,
    tableName: Option<string>)

  /** What is handed to the connection pool: `{ connectionString, max }`, passed through as given. */
  datatype PoolConfig = PoolConfig(connectionString: Option<string>, max: Option<int>)

  /** The configuration a constructed queue keeps. */
  datatype Settings = Settings(
    tableName: string,
    queueName: string,
    maxConcurrency: int,
    pool: Option<PoolConfig>)

  /** The message of the constructor's assertion on the queue name. */
  const QueueNameMessage: string := "queueName must be less or equal to 255"

  /** The AssertionError the constructor throws, with its message. */
  datatype ConfigError = AssertionError(message: string)

  /** JavaScript truthiness of an optional string: defined and not empty. */
  predicate TruthyString(v: Option<string>)
  {
    v.Some? && v.value != ""
  }

  /** JavaScript truthiness of an optional number: defined and not zero. */
  predicate TruthyNumber(v: Option<int>)
  {
    v.Some? && v.value != 0
  }

  /** `(opts && opts.x) || fallback` for a string option. */
  function StringOr(v: Option<string>, fallback: string): string
  {
    if TruthyString(v) then v.value else fallback
  }

  /** `(opts && opts.x) || fallback` for a number option. */
  function NumberOr(v: Option<int>, fallback: int): int
  {
    if TruthyNumber(v) then v.value else fallback
  }

  function TableNameOf(opts: Option<Options>): string
  {
    StringOr(if opts.Some? then opts.value.tableName else None, DefaultTableName)
  }

  function QueueNameOf(opts: Option<Options>): string
  {
    StringOr(if opts.Some? then opts.value.queueName else None, DefaultQueueName)
  }

  function MaxConcurrencyOf(opts: Option<Options>): int
  {
    NumberOr(if opts.Some? then opts.value.maxConcurrency else None, DefaultMaxConcurrency)
  }

  /** `opts ? { connectionString, max: maxTransactionConcurrency } : undefined`. */
  function PoolConfigOf(opts: Option<Options>): Option<PoolConfig>
  {
    match opts
    case None => None
    case Some(o) => Some(PoolConfig(o.connectionString, o.maxTransactionConcurrency))
  }

  /** The constructor: defaults first, then the length assertion on the effective queue name. */
  function Construct(opts: Option<Options>): (r: Result<Settings, ConfigError>)
    ensures r.Success? ==> r.value.tableName != "" && r.value.maxConcurrency != 0
    ensures r.Success? ==> 0 < |r.value.queueName| <= MaxQueueNameLength
  {
    var settings := Settings(TableNameOf(opts), QueueNameOf(opts), MaxConcurrencyOf(opts), PoolConfigOf(opts));
    if |settings.queueName| <= MaxQueueNameLength then Success(settings)
    else Failure(AssertionError(QueueNameMessage))
  }

  /** Construction succeeds exactly when the effective queue name has at most 255 characters. */
  lemma ConstructFailsIff(opts: Option<Options>)
    ensures Construct(opts).Failure? <==> |QueueNameOf(opts)| > MaxQueueNameLength
    ensures Construct(opts).Failure? ==> Construct(opts).error == AssertionError(QueueNameMessage)
  {
  }

  /** With no options object at all, every setting is its default and construction succeeds. */
  lemma ConstructWithoutOptions()
    ensures Construct(None) == Success(Settings(DefaultTableName, DefaultQueueName, DefaultMaxConcurrency, None))
  {
  }

  /** An absent or empty tableName falls back to '__pg_queue_jobs', whatever the other options are. */
  lemma FalsyTableNameTakesDefault(o: Options)
    requires o.tableName == None || o.tableName == Some("")
    ensures TableNameOf(Some(o)) == DefaultTableName
  {
  }

  /** An absent or empty queueName falls back to 'default', and construction then succeeds. */
  lemma FalsyQueueNameTakesDefault(o: Options)
    requires o.queueName == None || o.queueName == Some("")
    ensures QueueNameOf(Some(o)) == DefaultQueueName
    ensures Construct(Some(o)).Success? && Construct(Some(o)).value.queueName == DefaultQueueName
  {
  }

  /** An absent or zero maxConcurrency falls back to 10, whatever the other options are. */
  lemma FalsyMaxConcurrencyTakesDefault(o: Options)
    requires o.maxConcurrency == None || o.maxConcurrency == Some(0)
    ensures MaxConcurrencyOf(Some(o)) == DefaultMaxConcurrency
  {
  }

  /**
   * A given value that is truthy is kept as it is (a negative maxConcurrency too),
   * and the pool receives the connection options unchanged.
   */
  lemma TruthyOptionsAreKept(o: Options)
    ensures o.tableName.Some? && o.tableName.value != "" ==> TableNameOf(Some(o)) == o.tableName.value
    ensures o.queueName.Some? && o.queueName.value != "" ==> QueueNameOf(Some(o)) == o.queueName.value
    ensures o.maxConcurrency.Some? && o.maxConcurrency.value != 0 ==> MaxConcurrencyOf(Some(o)) == o.maxConcurrency.value
    ensures PoolConfigOf(Some(o)) == Some(PoolConfig(o.connectionString, o.maxTransactionConcurrency))
  {
  }
}
