/**
 * The PostgreSQL client (`pgClient`) as the plugin uses it: `query(text)`
 * either resolves to the result rows or rejects. What the database answers is
 * an arbitrary function of the whole history of statements sent on the
 * session, so every property proved here holds for every database behaviour.
 */
module Client {
  import opened Wrappers
  import opened Js
  import opened Sql

  /** A rejection of `pgClient.query` (constraint violation, cast failure, …), left abstract. */
  datatype DbError = DbError(code: string)

  datatype Response = Rows(rows: seq<Option<Row>>) | Failed(error: DbError)

  /** Why plugin code threw a `TypeError` (a property read on `null` or `undefined`). */
  datatype Fault =
    | MissingList                 // the input list is null
    | EmptyBatch                  // inputData[0] is undefined
    | NullItem(index: nat)        // inputData[index] is null
    | NoPrimaryKeyConstraint      // primaryKeys is undefined
    | UnknownColumn(field: string)// attrByFieldName[column] is undefined
    | NoPrimaryKeyAttribute       // primaryKey is undefined
    | NoNamespace                 // table.namespace is null
    | MissingOutputType(index: nat) // outputArgTypes[index] is undefined

  /** An exception thrown by the plugin: a database rejection or a `TypeError`. */
  datatype Error = Db(failure: DbError) | Thrown(fault: Fault)

  /** The statements a run sent to the client, and what it returned or threw. */
  datatype Outcome<T> = Outcome(log: seq<Statement>, result: Result<T, Error>)

  /** Every statement of the history `full` at positions `from` up to `to` (exclusive) was answered with rows. */
  predicate AllAnswered(answer: seq<Statement> -> Response, full: seq<Statement>, from: nat, to: nat) {
    forall k :: from < k <= to && k <= |full| ==> answer(full[..k]).Rows?
  }

  /** Appending a statement keeps the answers to the statements already sent. */
  lemma AllAnsweredExtend(answer: seq<Statement> -> Response, full: seq<Statement>, s: Statement, from: nat, to: nat)
    requires to <= |full| && AllAnswered(answer, full, from, to)
    ensures AllAnswered(answer, full + [s], from, to)
  {
    forall k | from < k <= to && k <= |full + [s]| ensures answer((full + [s])[..k]).Rows? {
      assert (full + [s])[..k] == full[..k];
    }
  }

  /** A prefix answered with rows extends the answered stretch back by one statement. */
  lemma AllAnsweredPrefix(answer: seq<Statement> -> Response, full: seq<Statement>, prefix: seq<Statement>, to: nat)
    requires 0 < |prefix| <= |full| && full[..|prefix|] == prefix && answer(prefix).Rows?
    requires AllAnswered(answer, full, |prefix|, to)
    ensures AllAnswered(answer, full, |prefix| - 1, to)
  {
  }

  /** The last statement answered with rows closes the answered stretch. */
  lemma AllAnsweredLast(answer: seq<Statement> -> Response, full: seq<Statement>, from: nat)
    requires |full| > 0 && AllAnswered(answer, full, from, |full| - 1) && answer(full).Rows?
    ensures AllAnswered(answer, full, from, |full|)
  {
    forall k | from < k <= |full| && k <= |full| ensures answer(full[..k]).Rows? {
      if k == |full| {
        assert full[..k] == full;
      }
    }
  }

  class PgClient {
    /** What the database answers to the last statement of a session history. */
    const answer: seq<Statement> -> Response
    /** Every statement sent so far, in order. */
    var log: seq<Statement>

    constructor (answer: seq<Statement> -> Response)
      ensures this.answer == answer && log == []
    {
      this.answer := answer;
      log := [];
    }

    /** `pgClient.query(text, values)`. */
    method Query(s: Statement) returns (r: Response)
      modifies this
      ensures log == old(log) + [s]
      ensures r == answer(log)
    {
      log := log + [s];
      r := answer(log);
    }
  }
}
