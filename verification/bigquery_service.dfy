/**
 The BigQuery service class: the decisions `insertRows`, `createTable`,
 `insert`, `update` and `updateOrCreate` take around their calls into the
 cloud client. Every remote call is an input (the answer it gives, or the
 exception it throws), and every operation returns a `Run`: the effects it
 issued in order (remote calls, log lines, echoed text) and how it ended.
 */
module BigQueryService {
  import opened Wrappers
  import opened PhpValues
  import opened BigQuerySql

  /** The project and dataset the service instance was constructed for. */
  datatype Service = Service(projectId: string, datasetId: string)

  /** One field descriptor of a table schema, passed through untouched. */
  datatype FieldSpec = FieldSpec(name: string, fieldType: string, mode: string)

  /** The options array `['schema' => ['fields' => $fields]]`. */
  datatype TableOptions = TableOptions(schema: Schema)
  datatype Schema = Schema(fields: seq<FieldSpec>)

  datatype Level = Error | Emergency

  datatype Effect =
    | CheckExists(table: string)
    | DeleteTable(table: string)
    | CreateTableCall(table: string, options: TableOptions)
    | StreamRows(table: string, rows: seq<Record>)
    | RunSql(sql: string)
    | Logged(level: Level, message: string)
    | Echoed(message: string)

  /** What an operation throws: the row-validation exception, the bare
      `\Exception` of `updateOrCreate`, the `ErrorException` the framework's
      error handler raises when an unset variable is read, or an exception of
      the client library passing through. */
  datatype Exception = InvalidRow | Generic | UndefinedVariable(name: string) | Remote(message: string)

  datatype Outcome<+T> = Returned(value: T) | Raised(exception: Exception)

  datatype Run<+T> = Run(effects: seq<Effect>, outcome: Outcome<T>)

  // ---------------------------------------------------------------------------
  // Answers of the remote side
  // ---------------------------------------------------------------------------

  /** A query job: it runs and reports `isComplete()`, or the client throws. */
  datatype JobResult = Finished(complete: bool) | JobFailed(message: string)

  /** The COUNT query: the `total` column of each row returned, or the client throws. */
  datatype CountResult = Totals(totals: seq<int>) | CountFailed(message: string)

  datatype DeleteResult = Deleted | DeleteNotFound | DeleteFailed(message: string)

  datatype CreateResult = Created | CreateFailed(message: string)

  datatype RowError = RowError(reason: string, message: string)
  datatype FailedRow = FailedRow(errors: seq<RowError>)

  /** The response of the structured insert: `isSuccessful()` and `failedRows()`. */
  datatype InsertResponse = InsertResponse(successful: bool, failedRows: seq<FailedRow>)

  /** The SQL statements among the effects, in the order they were submitted. */
  function Statements(effects: seq<Effect>): seq<string>
  {
    if |effects| == 0 then []
    else (if effects[0].RunSql? then [effects[0].sql] else []) + Statements(effects[1..])
  }

  lemma {:induction false} StatementsAppend(a: seq<Effect>, b: seq<Effect>)
    ensures Statements(a + b) == Statements(a) + Statements(b)
  {
    if |a| > 0 {
      assert (a + b)[1..] == a[1..] + b;
      StatementsAppend(a[1..], b);
    } else {
      assert a + b == b;
    }
  }

  /** The tables created among the effects, with the options they were created with. */
  function Creations(effects: seq<Effect>): seq<(string, TableOptions)>
  {
    if |effects| == 0 then []
    else
      var here := if effects[0].CreateTableCall? then [(effects[0].table, effects[0].options)] else [];
      here + Creations(effects[1..])
  }

  lemma {:induction false} NoStatements(effects: seq<Effect>)
    requires forall i :: 0 <= i < |effects| ==> !effects[i].RunSql?
    ensures Statements(effects) == []
  {
    if |effects| > 0 {
      NoStatements(effects[1..]);
    }
  }

  lemma {:induction false} NoCreations(effects: seq<Effect>)
    requires forall i :: 0 <= i < |effects| ==> !effects[i].CreateTableCall?
    ensures Creations(effects) == []
  {
    if |effects| > 0 {
      NoCreations(effects[1..]);
    }
  }

  // ---------------------------------------------------------------------------
  // insertRows
  // ---------------------------------------------------------------------------

  /** The position of the first failed row that lists an error, which is where
      the nested loop over failed rows and their errors stops. */
  function FirstRowWithErrors(rows: seq<FailedRow>): (r: Option<nat>)
    ensures r.None? <==> forall i :: 0 <= i < |rows| ==> rows[i].errors == []
    ensures r.Some? ==> r.value < |rows| && rows[r.value].errors != []
                        && forall j :: 0 <= j < r.value ==> rows[j].errors == []
  {
    if |rows| == 0 then None
    else if rows[0].errors != [] then Some(0)
    else match FirstRowWithErrors(rows[1..])
      case None => None
      case Some(i) => Some(i + 1)
  }

  /** `insertRows`: stream the rows, and on an unsuccessful response log the
      first error of the first failed row that has one and throw. */
  function InsertRows(tableId: string, rows: seq<Record>, response: InsertResponse): (r: Run<()>)
    ensures |r.effects| > 0 && r.effects[0] == StreamRows(tableId, rows)
    ensures r.outcome.Raised? <==>
      !response.successful && exists i :: 0 <= i < |response.failedRows| && response.failedRows[i].errors != []
    ensures r.outcome.Raised? ==>
      && r.outcome.exception == InvalidRow
      && exists i :: 0 <= i < |response.failedRows| && response.failedRows[i].errors != []
           && (forall j :: 0 <= j < i ==> response.failedRows[j].errors == [])
           && var e := response.failedRows[i].errors[0];
              r.effects == [StreamRows(tableId, rows), Logged(Error, tableId + " - " + e.reason + ":" + e.message)]
    ensures r.outcome.Returned? ==> r.effects == [StreamRows(tableId, rows)]
  {
    var streamed := [StreamRows(tableId, rows)];
    if response.successful then Run(streamed, Returned(()))
    else match FirstRowWithErrors(response.failedRows)
      case None => Run(streamed, Returned(()))
      case Some(i) =>
        var e := response.failedRows[i].errors[0];
        Run(streamed + [Logged(Error, tableId + " - " + e.reason + ":" + e.message)], Raised(InvalidRow))
  }

  // ---------------------------------------------------------------------------
  // createTable
  // ---------------------------------------------------------------------------

  /** `createTable`: `exists()` is asked first; an existing table is kept unless
      `refresh` is set; with `refresh` the table is deleted first (a missing
      table only echoes a notice) and then created with the given fields. */
  function CreateTable(tableId: string, fields: seq<FieldSpec>, refresh: bool,
                       tableExists: bool, delete: DeleteResult, create: CreateResult): (r: Run<()>)
    ensures |r.effects| > 0 && r.effects[0] == CheckExists(tableId)
    ensures tableExists && !refresh ==> r.effects == [CheckExists(tableId)] && r.outcome == Returned(())
    ensures !tableExists && !refresh ==>
      r.effects == [CheckExists(tableId), CreateTableCall(tableId, TableOptions(Schema(fields)))]
    ensures refresh && delete.Deleted? ==>
      r.effects == [CheckExists(tableId), DeleteTable(tableId), CreateTableCall(tableId, TableOptions(Schema(fields)))]
    ensures refresh && delete.DeleteNotFound? ==>
      r.effects == [CheckExists(tableId), DeleteTable(tableId), Echoed("Table " + tableId + " Not Found\n"),
                    CreateTableCall(tableId, TableOptions(Schema(fields)))]
    ensures refresh && delete.DeleteFailed? ==> r.effects == [CheckExists(tableId), DeleteTable(tableId)]
    ensures refresh <==> DeleteTable(tableId) in r.effects
    ensures refresh ==> r.effects[1] == DeleteTable(tableId)
    ensures refresh && delete.DeleteFailed? ==>
      Creations(r.effects) == [] && r.outcome == Raised(Remote(delete.message))
    ensures (!tableExists || refresh) && !(refresh && delete.DeleteFailed?) ==>
      && Creations(r.effects) == [(tableId, TableOptions(Schema(fields)))]
      && r.effects[|r.effects| - 1] == CreateTableCall(tableId, TableOptions(Schema(fields)))
      && r.outcome == (if create.Created? then Returned(()) else Raised(Remote(create.message)))
  {
    var checked := [CheckExists(tableId)];
    if tableExists && !refresh then Run(checked, Returned(()))
    else
      var deleted :=
        if !refresh then Run(checked, Returned(()))
        else match delete
          case Deleted => Run(checked + [DeleteTable(tableId)], Returned(()))
          case DeleteNotFound =>
            Run(checked + [DeleteTable(tableId), Echoed("Table " + tableId + " Not Found\n")], Returned(()))
          case DeleteFailed(m) => Run(checked + [DeleteTable(tableId)], Raised(Remote(m)));
      NoCreations(deleted.effects);
      if deleted.outcome.Raised? then deleted
      else
        var effects := deleted.effects + [CreateTableCall(tableId, TableOptions(Schema(fields)))];
        CreationsSnoc(deleted.effects, CreateTableCall(tableId, TableOptions(Schema(fields))));
        Run(effects, if create.Created? then Returned(()) else Raised(Remote(create.message)))
  }

  lemma {:induction false} CreationsSnoc(a: seq<Effect>, e: Effect)
    ensures Creations(a + [e]) == Creations(a) + Creations([e])
  {
    if |a| > 0 {
      assert (a + [e])[1..] == a[1..] + [e];
      CreationsSnoc(a[1..], e);
    }
  }

  // ---------------------------------------------------------------------------
  // insert, update
  // ---------------------------------------------------------------------------

  const Banner := "------ BigQuery ------"

  /** `insert`: submit the INSERT statement; a client exception is logged twice
      at emergency level and swallowed, and the call then returns null. */
  function Insert(svc: Service, tableId: string, data: Record, job: JobResult): (r: Run<Option<bool>>)
    ensures Statements(r.effects) == [InsertSql(svc.datasetId, tableId, data)]
    ensures r.effects[0] == RunSql(InsertSql(svc.datasetId, tableId, data))
    ensures r.outcome.Returned?
    ensures job.Finished? ==> r.outcome.value == Some(job.complete) && |r.effects| == 1
    ensures job.JobFailed? ==>
      r.outcome.value == None && r.effects[1..] == [Logged(Emergency, Banner), Logged(Emergency, job.message)]
    ensures r.effects == [RunSql(InsertSql(svc.datasetId, tableId, data))]
                         + (if job.JobFailed? then [Logged(Emergency, Banner), Logged(Emergency, job.message)] else [])
  {
    var submitted := [RunSql(InsertSql(svc.datasetId, tableId, data))];
    match job
    case Finished(complete) => Run(submitted, Returned(Some(complete)))
    case JobFailed(m) =>
      var effects := submitted + [Logged(Emergency, Banner), Logged(Emergency, m)];
      assert effects[1..] == [Logged(Emergency, Banner), Logged(Emergency, m)];
      StatementsAppend(submitted, effects[1..]);
      NoStatements(effects[1..]);
      Run(effects, Returned(None))
  }

  /** `update`: submit the UPDATE statement with `condition` as its WHERE text;
      a client exception propagates. */
  function Update(svc: Service, tableId: string, condition: string, data: Record, job: JobResult): (r: Run<bool>)
    ensures r.effects == [RunSql(UpdateSql(svc.datasetId, tableId, condition, data))]
    ensures Statements(r.effects) == [UpdateSql(svc.datasetId, tableId, condition, data)]
    ensures job.Finished? ==> r.outcome == Returned(job.complete)
    ensures job.JobFailed? ==> r.outcome == Raised(Remote(job.message))
  {
    var submitted := [RunSql(UpdateSql(svc.datasetId, tableId, condition, data))];
    match job
    case Finished(complete) => Run(submitted, Returned(complete))
    case JobFailed(m) => Run(submitted, Raised(Remote(m)))
  }

  // ---------------------------------------------------------------------------
  // updateOrCreate
  // ---------------------------------------------------------------------------

  /** `$exist` after the loop over the COUNT rows is the last row's total; a
      nonzero total is truthy. With no rows it is never assigned. */
  predicate RowExists(totals: seq<int>)
  {
    |totals| > 0 && totals[|totals| - 1] != 0
  }

  /** The COUNT rows end with a zero total: nothing matches the WHERE text. */
  predicate NoRowMatches(totals: seq<int>)
  {
    |totals| > 0 && totals[|totals| - 1] == 0
  }

  /** The dispatch of `updateOrCreate` for a given WHERE text: the COUNT query,
      then one update with the same WHERE text, or one insert of the merged
      record. */
  function Upsert(svc: Service, tableId: string, where: string, condition: Record, data: Record,
                  count: CountResult, job: JobResult): (r: Run<Option<bool>>)
    ensures |r.effects| > 0 && r.effects[0] == RunSql(CountSql(svc.projectId, svc.datasetId, tableId, where))
    ensures count.CountFailed? ==>
      Statements(r.effects) == [CountSql(svc.projectId, svc.datasetId, tableId, where)]
      && r.outcome == Raised(Generic)
    ensures count.Totals? && RowExists(count.totals) ==>
      && Statements(r.effects)
         == [CountSql(svc.projectId, svc.datasetId, tableId, where), UpdateSql(svc.datasetId, tableId, where, data)]
      && r.outcome == (if job.Finished? then Returned(Some(job.complete)) else Raised(Remote(job.message)))
    ensures count.Totals? && count.totals == [] ==>
      Statements(r.effects) == [CountSql(svc.projectId, svc.datasetId, tableId, where)]
      && r.outcome == Raised(UndefinedVariable("exist"))
    ensures count.Totals? && NoRowMatches(count.totals) ==>
      && Statements(r.effects)
         == [CountSql(svc.projectId, svc.datasetId, tableId, where), InsertSql(svc.datasetId, tableId, ArrayMerge(condition, data))]
      && r.outcome == Returned(if job.Finished? then Some(job.complete) else None)
    ensures count.CountFailed? || count.totals == [] ==>
      r.effects == [RunSql(CountSql(svc.projectId, svc.datasetId, tableId, where))]
    ensures count.Totals? && RowExists(count.totals) ==>
      r.effects == [RunSql(CountSql(svc.projectId, svc.datasetId, tableId, where)),
                    RunSql(UpdateSql(svc.datasetId, tableId, where, data))]
    ensures count.Totals? && NoRowMatches(count.totals) ==>
      r.effects == [RunSql(CountSql(svc.projectId, svc.datasetId, tableId, where)),
                    RunSql(InsertSql(svc.datasetId, tableId, ArrayMerge(condition, data)))]
                   + (if job.JobFailed? then [Logged(Emergency, Banner), Logged(Emergency, job.message)] else [])
  {
    var counted := [RunSql(CountSql(svc.projectId, svc.datasetId, tableId, where))];
    match count
    case CountFailed(_) => Run(counted, Raised(Generic))
    case Totals(totals) =>
      if totals == [] then Run(counted, Raised(UndefinedVariable("exist")))
      else if RowExists(totals) then
        var u := Update(svc, tableId, where, data, job);
        StatementsAppend(counted, u.effects);
        Run(counted + u.effects, match u.outcome
          case Returned(b) => Returned(Some(b))
          case Raised(e) => Raised(e))
      else
        var i := Insert(svc, tableId, ArrayMerge(condition, data), job);
        StatementsAppend(counted, i.effects);
        Run(counted + i.effects, i.outcome)
  }

  /** `updateOrCreate` as written, with the WHERE text its loop builds. */
  function UpdateOrCreate(svc: Service, tableId: string, condition: Record, data: Record,
                          count: CountResult, job: JobResult): Run<Option<bool>>
  {
    Upsert(svc, tableId, WhereAsWritten(condition), condition, data, count, job)
  }

  /** `updateOrCreate` with the WHERE text conjoining every equality. */
  function UpdateOrCreateCorrected(svc: Service, tableId: string, condition: Record, data: Record,
                                   count: CountResult, job: JobResult): Run<Option<bool>>
  {
    Upsert(svc, tableId, WhereCorrected(condition), condition, data, count, job)
  }

  /** When no row matches, the one INSERT carries `array_merge($condition, $data)`:
      the condition's keys first in their own order, then the data's new keys,
      each key holding the data's value when the data has one. */
  lemma UpsertInsertsMergedRecord(svc: Service, tableId: string, where: string, condition: Record, data: Record,
                                  count: CountResult, job: JobResult)
    requires NoDuplicates(Keys(condition)) && NoDuplicates(Keys(data))
    requires count.Totals? && NoRowMatches(count.totals)
    ensures var merged := ArrayMerge(condition, data);
      && Statements(Upsert(svc, tableId, where, condition, data, count, job).effects)[1]
         == InsertSql(svc.datasetId, tableId, merged)
      && NoDuplicates(Keys(merged))
      && Keys(merged) == Keys(condition) + Fresh(Keys(condition), Keys(data))
      && forall k :: Lookup(merged, k) == if Lookup(data, k).Some? then Lookup(data, k) else Lookup(condition, k)
  {
    var merged := ArrayMerge(condition, data);
    MergeNoDuplicates(condition, data);
    MergeKeys(condition, data);
    forall k
      ensures Lookup(merged, k) == if Lookup(data, k).Some? then Lookup(data, k) else Lookup(condition, k)
    {
      MergeLookup(condition, data, k);
    }
  }

  /** Where every condition value is a string or null, the as-written and the
      corrected `updateOrCreate` issue the same statements and end the same way. */
  lemma UpdateOrCreateAgreesOnStrings(svc: Service, tableId: string, condition: Record, data: Record,
                                      count: CountResult, job: JobResult)
    requires forall i :: 0 <= i < |condition| ==> !IsNumeric(condition[i].value)
    ensures UpdateOrCreate(svc, tableId, condition, data, count, job)
         == UpdateOrCreateCorrected(svc, tableId, condition, data, count, job)
  {
    WhereAgreesOnStrings(condition);
  }

  /** Upserting `['id' => 5]` with `['name' => 'Ann']`: when a row matches, the
      UPDATE as written filters on `WHERE id`, while the corrected one filters on
      `WHERE id = 5`. */
  lemma UpsertFoundExample(svc: Service, tableId: string, job: JobResult)
    ensures var cond, data := [Entry("id", Int(5))], [Entry("name", Str("Ann"))];
      && Statements(UpdateOrCreate(svc, tableId, cond, data, Totals([1]), job).effects)[1]
         == UpdateSql(svc.datasetId, tableId, "id", data)
      && Statements(UpdateOrCreateCorrected(svc, tableId, cond, data, Totals([1]), job).effects)[1]
         == UpdateSql(svc.datasetId, tableId, "id = 5", data)
  {
    WhereNumericTruncated();
  }

  /** Upserting `['id' => 5]` with `['name' => 'Ann']` when no row matches inserts
      the merged record `['id' => 5, 'name' => 'Ann']`. */
  lemma UpsertAbsentExample(svc: Service, tableId: string, job: JobResult)
    ensures var cond, data := [Entry("id", Int(5))], [Entry("name", Str("Ann"))];
      Statements(UpdateOrCreate(svc, tableId, cond, data, Totals([0]), job).effects)[1]
      == InsertSql(svc.datasetId, tableId, [Entry("id", Int(5)), Entry("name", Str("Ann"))])
  {
    var cond, data := [Entry("id", Int(5))], [Entry("name", Str("Ann"))];
    assert Put(cond, data[0]) == [Entry("id", Int(5)), Entry("name", Str("Ann"))];
    assert ArrayMerge(cond, data) == [Entry("id", Int(5)), Entry("name", Str("Ann"))];
  }
}
