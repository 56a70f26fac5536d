/**
 * The table name as it reaches the database inside the statements of
 * src/PgQueue.ts. The INSERT (line 121), the claim DELETE (lines 86-89) and the
 * COUNT (line 141) name the table through `e(tableName)`; the CREATE TABLE of
 * `migrate` (line 157) interpolates the bare name. PostgreSQL reads a bare name as
 * an unquoted identifier and folds its letters to lower case, and a delimited one
 * as it is (section 4.1.1 of the PostgreSQL documentation), so the two can name
 * different relations. The model keeps the statement as written, shows an input
 * where the two disagree, and uses the quoted statement, proved to agree for every
 * table name.
 */
module SqlText {
  import opened Wrappers
  import opened Quoting

  const InsertHead: string := "INSERT INTO "
  const InsertTail: string := "(queue, data) VALUES ($1, $2)"
  const CreateHead: string := "CREATE TABLE IF NOT EXISTS "
  const CreateColumns: string := "id bigserial, queue varchar(255), data json)"
  const CreateTail: string := "(" + CreateColumns

  // ------------------------------------------------ reading a relation name

  predicate IdentStart(c: char)
  {
    ('a' <= c <= 'z') || ('A' <= c <= 'Z') || c == '_' || c as int >= 128
  }

  predicate IdentChar(c: char)
  {
    IdentStart(c) || ('0' <= c <= '9') || c == '$'
  }

  /** Case folding of an unquoted identifier: ASCII upper case to lower case. */
  function Fold(c: char): char
  {
    if 'A' <= c <= 'Z' then (c as int + 32) as char else c
  }

  /** The longest run of identifier characters at the start of `text`, folded, and what follows. */
  function ScanUnquoted(text: string): (string, string)
  {
    if text != [] && IdentChar(text[0]) then
      var (ident, rest) := ScanUnquoted(text[1..]);
      ([Fold(text[0])] + ident, rest)
    else ([], text)
  }

  /** The name of the relation an identifier at the start of `text` denotes, and the text after it. */
  function LexName(text: string): Option<(string, string)>
  {
    if text == [] then None
    else if text[0] == Dq then LexDelimited(text)
    else if IdentStart(text[0]) then Some(ScanUnquoted(text))
    else None
  }

  /** The relation a statement starting with `head` names right after it. */
  function RelationAfter(head: string, sql: string): Option<string>
  {
    if head <= sql then
      match LexName(sql[|head|..])
      case Some((name, _)) => Some(name)
      case None => None
    else None
  }

  lemma RelationAfterQuoted(head: string, name: string, tail: string)
    requires Separated(tail)
    ensures RelationAfter(head, head + QuoteIdentifier(name) + tail) == Some(name)
  {
    var sql := head + QuoteIdentifier(name) + tail;
    assert sql[|head|..] == QuoteIdentifier(name) + tail;
    LexQuoteIdentifierIff(QuoteIdentifier(name) + tail, name, tail);
  }

  /** A plain name: an identifier start, then identifier characters, none of them upper case. */
  predicate PlainName(name: string)
  {
    && name != [] && IdentStart(name[0])
    && forall k :: 0 <= k < |name| ==> IdentChar(name[k]) && !('A' <= name[k] <= 'Z')
  }

  lemma {:induction false} ScanPlain(name: string, rest: string)
    requires forall k :: 0 <= k < |name| ==> IdentChar(name[k]) && !('A' <= name[k] <= 'Z')
    requires rest == [] || !IdentChar(rest[0])
    ensures ScanUnquoted(name + rest) == (name, rest)
  {
    if name == [] {
      assert name + rest == rest;
    } else {
      assert (name + rest)[1..] == name[1..] + rest;
      ScanPlain(name[1..], rest);
      assert [name[0]] + name[1..] == name;
    }
  }

  /** A plain name followed by a non-identifier character is read back as it is. */
  lemma RelationAfterPlain(head: string, name: string, tail: string)
    requires PlainName(name)
    requires tail == [] || !IdentChar(tail[0])
    ensures RelationAfter(head, head + name + tail) == Some(name)
  {
    var sql := head + name + tail;
    assert sql[|head|..] == name + tail;
    ScanPlain(name, tail);
  }

  // ------------------------------------------------ the statements

  /** The statement of `enqueue`: it inserts into the relation named exactly `tableName`. */
  function InsertSql(tableName: string): (r: string)
    ensures RelationAfter(InsertHead, r) == Some(tableName)
  {
    RelationAfterQuoted(InsertHead, tableName, InsertTail);
    InsertHead + QuoteIdentifier(tableName) + InsertTail
  }

  /**
   * The statement of `migrate` as written: the table name is not quoted. For plain
   * names, such as the default `__pg_queue_jobs`, it still creates relation `tableName`.
   */
  function MigrateSqlAsWritten(tableName: string): (r: string)
    ensures PlainName(tableName) ==> RelationAfter(CreateHead, r) == Some(tableName)
  {
    assert CreateTail[0] == '(';
    if PlainName(tableName) then
      RelationAfterPlain(CreateHead, tableName, CreateTail);
      CreateHead + tableName + CreateTail
    else CreateHead + tableName + CreateTail
  }

  /**
   * The statement of `migrate` with the table name quoted like in every other
   * statement: it creates the very relation the INSERT uses, for every table name.
   */
  function MigrateSql(tableName: string): (r: string)
    ensures RelationAfter(CreateHead, r) == Some(tableName)
    ensures RelationAfter(CreateHead, r) == RelationAfter(InsertHead, InsertSql(tableName))
  {
    assert CreateTail[0] == '(';
    RelationAfterQuoted(CreateHead, tableName, CreateTail);
    CreateHead + QuoteIdentifier(tableName) + CreateTail
  }

  lemma ScanStep(c: char, text: string)
    requires IdentChar(c)
    ensures ScanUnquoted([c] + text) == ([Fold(c)] + ScanUnquoted(text).0, ScanUnquoted(text).1)
  {
    assert ([c] + text)[1..] == text;
  }

  /** The lexer reads the bare `Jobs(` as the folded identifier `jobs`. */
  lemma ScanJobs()
    ensures ScanUnquoted("Jobs" + CreateTail) == ("jobs", CreateTail)
  {
    assert CreateTail[0] == '(';
    assert ScanUnquoted(CreateTail) == ([], CreateTail);
    ScanStep('s', CreateTail);
    assert ['s'] + CreateTail == "s" + CreateTail;
    assert Fold('s') == 's' && Fold('b') == 'b' && Fold('o') == 'o';
    assert ['s'] + [] == "s";
    assert ScanUnquoted("s" + CreateTail) == ("s", CreateTail);
    ScanStep('b', "s" + CreateTail);
    assert ['b'] + ("s" + CreateTail) == "bs" + CreateTail && ['b'] + "s" == "bs";
    assert ScanUnquoted("bs" + CreateTail) == ("bs", CreateTail);
    ScanStep('o', "bs" + CreateTail);
    assert ['o'] + ("bs" + CreateTail) == "obs" + CreateTail && ['o'] + "bs" == "obs";
    assert ScanUnquoted("obs" + CreateTail) == ("obs", CreateTail);
    ScanStep('J', "obs" + CreateTail);
    assert Fold('J') == 'j';
    assert ['J'] + ("obs" + CreateTail) == "Jobs" + CreateTail && ['j'] + "obs" == "jobs";
  }

  /**
   * The discrepancy: with table name "Jobs", `migrate` as written creates relation
   * "jobs", while enqueue, dequeue and the count go to relation "Jobs".
   */
  lemma MigrateAsWrittenFoldsCase()
    ensures RelationAfter(CreateHead, MigrateSqlAsWritten("Jobs")) == Some("jobs")
    ensures RelationAfter(InsertHead, InsertSql("Jobs")) == Some("Jobs")
  {
    var sql := MigrateSqlAsWritten("Jobs");
    assert sql == CreateHead + ("Jobs" + CreateTail);
    assert sql[|CreateHead|..] == "Jobs" + CreateTail;
    ScanJobs();
    assert LexName("Jobs" + CreateTail) == Some(("jobs", CreateTail));
  }
}
