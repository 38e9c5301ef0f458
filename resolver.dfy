/**
 * The `update<Table>s` resolver (index.js:315-406): it builds the batch
 * UPDATE, then runs it inside the savepoint `graphql_mutation`, first through
 * the codec round trip and then once more directly, whose rows are returned.
 * Any rejection inside the bracket rolls back to the savepoint and is
 * rethrown. `Symbol()` is a counter: the resolver's aliases are
 * `Symbol(counter)` for the inserted row, `Symbol(counter + 1)` and
 * `Symbol(counter + 2)` for the table and the VALUES list, and
 * `Symbol(counter + 3)` for the codec's own alias.
 */
module Resolver {
  import opened Wrappers
  import opened Js
  import opened Sql
  import opened Client
  import opened Introspection
  import opened BatchUpdate
  import opened Codec

  /** The mutation's input: `clientMutationId` and the list under `<table>s`. */
  datatype Input = Input(clientMutationId: JsValue, list: Option<seq<Option<BatchItem>>>)

  /** What the resolver returns. */
  datatype Payload = Payload(clientMutationId: JsValue, data: seq<Option<Row>>)

  /** The codec call the resolver makes for the built statement. */
  function ResolverCall(field: MutationField, u: UpdateStatement, resultQuery: Statement, counter: nat): CodecCall
    requires field.table.namespace.Some?
  {
    CodecCall(Some(Ident([field.table.namespace.value.name, field.table.name])), Update(u), Symbol(counter), resultQuery,
              true, None, Symbol(counter + 3))
  }

  /** The `catch` block: roll back to the savepoint, then rethrow `e`, unless the rollback itself is rejected. */
  function RollBack(answer: seq<Statement> -> Response, log: seq<Statement>, e: Error): (o: Outcome<Payload>)
    ensures o.log == log + [Rollback] && o.result.Err?
    ensures answer(o.log).Rows? ==> o.result.error == e
    ensures answer(o.log).Failed? ==> o.result.error == Db(answer(o.log).error)
  {
    var l := log + [Rollback];
    match answer(l)
    case Failed(e2) => Outcome(l, Err(Db(e2)))
    case Rows(_) => Outcome(l, Err(e))
  }

  /** The `try` block, from the SAVEPOINT on, for a statement that was built. */
  function Bracket(answer: seq<Statement> -> Response, log: seq<Statement>, u: UpdateStatement, call: CodecCall, clientMutationId: JsValue)
    : Outcome<Payload>
  {
    var l0 := log + [Savepoint];
    match answer(l0)
    case Failed(e) => RollBack(answer, l0, Db(e))
    case Rows(_) => AfterVia(answer, RunVia(answer, l0, call), u, clientMutationId)
  }

  /** The rest of the `try` block once `viaTemporaryTable` has settled as `via`. */
  function AfterVia(answer: seq<Statement> -> Response, via: Outcome<seq<JsValue>>, u: UpdateStatement, clientMutationId: JsValue)
    : Outcome<Payload>
  {
    if via.result.Err? then RollBack(answer, via.log, via.result.error)
    else
      var l2 := via.log + [Update(u)];
      match answer(l2)
      case Failed(e) => RollBack(answer, l2, Db(e))
      case Rows(rows) =>
        var l3 := l2 + [Release];
        match answer(l3)
        case Failed(e) => RollBack(answer, l3, Db(e))
        case Rows(_) => Outcome(l3, Ok(Payload(clientMutationId, rows)))
  }

  /** The whole resolver: a build error is thrown before anything is sent. */
  function ResolveRun(answer: seq<Statement> -> Response, log: seq<Statement>, cat: Catalog, field: MutationField, input: Input,
                      resultQuery: Statement, counter: nat): Outcome<Payload>
  {
    match BuildUpdate(cat, field, input.list, Symbol(counter + 1), Symbol(counter + 2))
    case Err(f) => Outcome(log, Err(Thrown(f)))
    case Ok(u) => Bracket(answer, log, u, ResolverCall(field, u, resultQuery, counter), input.clientMutationId)
  }

  /** `await pgClient.query("ROLLBACK TO SAVEPOINT graphql_mutation"); throw e`. */
  method RollBackAndThrow(client: PgClient, e: Error) returns (r: Result<Payload, Error>)
    modifies client
    ensures Outcome(client.log, r) == RollBack(client.answer, old(client.log), e)
  {
    var response := client.Query(Rollback);
    if response.Failed? {
      return Err(Db(response.error));
    }
    return Err(e);
  }

  /** The resolver against a live client. */
  method Resolve(client: PgClient, cat: Catalog, field: MutationField, input: Input, resultQuery: Statement, counter: nat)
    returns (r: Result<Payload, Error>)
    modifies client
    ensures Outcome(client.log, r) == ResolveRun(client.answer, old(client.log), cat, field, input, resultQuery, counter)
  {
    var built := BuildUpdate(cat, field, input.list, Symbol(counter + 1), Symbol(counter + 2));
    if built.Err? {
      return Err(Thrown(built.error));
    }
    var u := built.value;
    var call := ResolverCall(field, u, resultQuery, counter);
    var saved := client.Query(Savepoint);
    if saved.Failed? {
      r := RollBackAndThrow(client, Db(saved.error));
      return;
    }
    var via := ViaTemporaryTable(client, call);
    if via.Err? {
      r := RollBackAndThrow(client, via.error);
      return;
    }
    var result := client.Query(Update(u));
    if result.Failed? {
      r := RollBackAndThrow(client, Db(result.error));
      return;
    }
    var released := client.Query(Release);
    if released.Failed? {
      r := RollBackAndThrow(client, Db(released.error));
      return;
    }
    return Ok(Payload(input.clientMutationId, result.rows));
  }

  /** A statement that cannot be built throws before the client sees anything. */
  lemma BuildErrorSendsNothing(answer: seq<Statement> -> Response, log: seq<Statement>, cat: Catalog, field: MutationField, input: Input,
                               resultQuery: Statement, counter: nat)
    requires BuildUpdate(cat, field, input.list, Symbol(counter + 1), Symbol(counter + 2)).Err?
    ensures var o := ResolveRun(answer, log, cat, field, input, resultQuery, counter);
      o.log == log && o.result == Err(Thrown(BuildUpdate(cat, field, input.list, Symbol(counter + 1), Symbol(counter + 2)).error))
  {
  }

  /** `full` continues `log` with one SAVEPOINT and no other. */
  predicate Opens(log: seq<Statement>, full: seq<Statement>) {
    |log| < |full| && full[..|log|] == log && full[|log|] == Savepoint
    && forall j :: |log| < j < |full| ==> full[j] != Savepoint
  }

  lemma OpensExtend(log: seq<Statement>, full: seq<Statement>, s: Statement)
    requires Opens(log, full) && s != Savepoint
    ensures Opens(log, full + [s])
  {
    assert (full + [s])[..|full|] == full;
    assert (full + [s])[..|log|] == full[..|log|];
  }

  /** The codec run after the SAVEPOINT keeps the bracket open. */
  lemma OpensVia(answer: seq<Statement> -> Response, log: seq<Statement>, call: CodecCall)
    requires call.typeId.Some? && call.isPgClassLike
    ensures Opens(log, RunVia(answer, log + [Savepoint], call).log)
  {
    var l0 := log + [Savepoint];
    ClassLikeRun(answer, l0, call);
    var full := RunVia(answer, l0, call).log;
    assert full[..|log|] == full[..|l0|][..|log|];
    assert full[..|l0|][..|log|] == log;
    assert full[|log|] == full[..|l0|][|log|];
  }

  /**
   * The bracket's framing: the history is kept, the SAVEPOINT is sent once,
   * first, and the session ends with RELEASE when the run returns and with
   * ROLLBACK when it throws.
   */
  lemma BracketFraming(answer: seq<Statement> -> Response, log: seq<Statement>, u: UpdateStatement, call: CodecCall,
                       clientMutationId: JsValue)
    requires call.typeId.Some? && call.isPgClassLike
    ensures var o := Bracket(answer, log, u, call, clientMutationId);
      var n := |o.log|;
      Opens(log, o.log)
      && (o.result.Ok? <==> o.log[n - 1] == Release)
      && (o.result.Err? <==> o.log[n - 1] == Rollback)
  {
    var l0 := log + [Savepoint];
    assert Opens(log, l0) by {
      assert l0[..|log|] == log;
    }
    if answer(l0).Failed? {
      OpensExtend(log, l0, Rollback);
    } else {
      OpensVia(answer, log, call);
      AfterViaFraming(answer, log, RunVia(answer, l0, call), u, clientMutationId);
    }
  }

  /** The rest of the bracket keeps it open and closes it with RELEASE or ROLLBACK. */
  lemma AfterViaFraming(answer: seq<Statement> -> Response, log: seq<Statement>, via: Outcome<seq<JsValue>>, u: UpdateStatement,
                        clientMutationId: JsValue)
    requires Opens(log, via.log)
    ensures var o := AfterVia(answer, via, u, clientMutationId);
      var n := |o.log|;
      Opens(log, o.log)
      && (o.result.Ok? <==> o.log[n - 1] == Release)
      && (o.result.Err? <==> o.log[n - 1] == Rollback)
  {
    if via.result.Err? {
      OpensExtend(log, via.log, Rollback);
    } else {
      var l2 := via.log + [Update(u)];
      OpensExtend(log, via.log, Update(u));
      if answer(l2).Failed? {
        OpensExtend(log, l2, Rollback);
      } else {
        var l3 := l2 + [Release];
        OpensExtend(log, l2, Release);
        if answer(l3).Failed? {
          OpensExtend(log, l3, Rollback);
        }
      }
    }
  }

  /**
   * A bracket that returns sent, after the SAVEPOINT, the codec's serialize
   * query, possibly its reconstruction query, the UPDATE once more and the
   * RELEASE; its data are the rows the direct UPDATE answered.
   */
  lemma {:induction false} BracketSuccess(answer: seq<Statement> -> Response, log: seq<Statement>, u: UpdateStatement, call: CodecCall,
                                          clientMutationId: JsValue)
    requires call.typeId.Some? && call.isPgClassLike
    ensures var o := Bracket(answer, log, u, call, clientMutationId);
      var n := |o.log|;
      o.result.Ok? ==>
      |log| + 4 <= n <= |log| + 5
      && o.log[|log| + 1] == SerializeQuery(call, call.typeId.value)
      && o.log[n - 2] == Update(u) && o.log[n - 1] == Release
      && answer(o.log[..n - 1]) == Rows(o.result.value.data)
      && o.result.value.clientMutationId == clientMutationId
  {
    var l0 := log + [Savepoint];
    var o := Bracket(answer, log, u, call, clientMutationId);
    if o.result.Ok? {
      ClassLikeRun(answer, l0, call);
      var via := RunVia(answer, l0, call);
      var l2 := via.log + [Update(u)];
      assert o.log == l2 + [Release];
      assert o.log[..|o.log| - 1] == l2;
    }
  }

  /**
   * The resolver's statements once the UPDATE is built: the SAVEPOINT first and
   * only once, then the codec's queries, the first of which runs the UPDATE and
   * serializes its rows as the table type; on success the UPDATE a second time,
   * whose rows are the payload's data, and the RELEASE last, every statement
   * having been answered with rows; on failure a ROLLBACK last.
   */
  lemma BracketShape(answer: seq<Statement> -> Response, log: seq<Statement>, cat: Catalog, field: MutationField, input: Input,
                     resultQuery: Statement, counter: nat)
    requires BuildUpdate(cat, field, input.list, Symbol(counter + 1), Symbol(counter + 2)).Ok?
    ensures var u := BuildUpdate(cat, field, input.list, Symbol(counter + 1), Symbol(counter + 2)).value;
      var o := ResolveRun(answer, log, cat, field, input, resultQuery, counter);
      var n := |o.log|;
      Opens(log, o.log)
      && (o.result.Ok? <==> o.log[n - 1] == Release)
      && (o.result.Err? <==> o.log[n - 1] == Rollback)
      && (o.result.Ok? ==>
            AllAnswered(answer, o.log, |log|, n)
            && |log| + 4 <= n <= |log| + 5
            && o.log[|log| + 1] == With(Symbol(counter), Update(u),
                                        SelectText(SelectionField(Symbol(counter), Ident([field.table.namespace.value.name, field.table.name]), true, None), Symbol(counter)))
            && o.log[n - 2] == Update(u)
            && answer(o.log[..n - 1]) == Rows(o.result.value.data)
            && o.result.value.clientMutationId == input.clientMutationId)
  {
    var u := BuildUpdate(cat, field, input.list, Symbol(counter + 1), Symbol(counter + 2)).value;
    var call := ResolverCall(field, u, resultQuery, counter);
    BracketFraming(answer, log, u, call, input.clientMutationId);
    BracketSuccess(answer, log, u, call, input.clientMutationId);
    BracketSteps(answer, log, u, call, input.clientMutationId);
  }

  /**
   * Once built, a failing run ends with a ROLLBACK right after the first
   * rejected statement, every earlier one having been answered with rows; it
   * rethrows that rejection, or the rollback's own rejection when it is refused.
   */
  lemma FailureRethrown(answer: seq<Statement> -> Response, log: seq<Statement>, cat: Catalog, field: MutationField, input: Input,
                        resultQuery: Statement, counter: nat)
    requires BuildUpdate(cat, field, input.list, Symbol(counter + 1), Symbol(counter + 2)).Ok?
    requires ResolveRun(answer, log, cat, field, input, resultQuery, counter).result.Err?
    ensures var o := ResolveRun(answer, log, cat, field, input, resultQuery, counter);
      var n := |o.log|;
      n >= |log| + 2 && o.log[n - 1] == Rollback
      && answer(o.log[..n - 1]).Failed? && AllAnswered(answer, o.log, |log|, n - 2)
      && (answer(o.log).Failed? ==> o.result.error == Db(answer(o.log).error))
      && (answer(o.log).Rows? ==> o.result.error == Db(answer(o.log[..n - 1]).error))
  {
    var u := BuildUpdate(cat, field, input.list, Symbol(counter + 1), Symbol(counter + 2)).value;
    StatementShape(cat, field, input.list, Symbol(counter + 1), Symbol(counter + 2));
    var call := ResolverCall(field, u, resultQuery, counter);
    var l0 := log + [Savepoint];
    BracketSteps(answer, log, u, call, input.clientMutationId);
    if answer(l0).Rows? {
      ClassLikeRun(answer, l0, call);
    }
  }

  /**
   * The bracket stops at the first rejection: when it returns, every statement
   * from the SAVEPOINT to the RELEASE was answered with rows; when it throws,
   * the statement just before the ROLLBACK was rejected and every one before
   * it was answered with rows.
   */
  lemma BracketSteps(answer: seq<Statement> -> Response, log: seq<Statement>, u: UpdateStatement, call: CodecCall,
                     clientMutationId: JsValue)
    requires call.typeId.Some? && call.isPgClassLike
    ensures var o := Bracket(answer, log, u, call, clientMutationId);
      var n := |o.log|;
      n >= |log| + 2
      && (o.result.Ok? ==> AllAnswered(answer, o.log, |log|, n))
      && (o.result.Err? ==> answer(o.log[..n - 1]).Failed? && AllAnswered(answer, o.log, |log|, n - 2))
  {
    var l0 := log + [Savepoint];
    if answer(l0).Failed? {
      assert (l0 + [Rollback])[..|l0|] == l0;
    } else {
      ViaSteps(answer, log, call);
      AfterViaSteps(answer, log, RunVia(answer, l0, call), u, clientMutationId);
    }
  }

  /** After an accepted SAVEPOINT the codec run stops at its first rejection and fails exactly on one. */
  lemma ViaSteps(answer: seq<Statement> -> Response, log: seq<Statement>, call: CodecCall)
    requires call.typeId.Some? && call.isPgClassLike
    requires answer(log + [Savepoint]).Rows?
    ensures var via := RunVia(answer, log + [Savepoint], call);
      |log| < |via.log| && AllAnswered(answer, via.log, |log|, |via.log| - 1)
      && (via.result.Ok? <==> answer(via.log).Rows?)
  {
    var l0 := log + [Savepoint];
    var via := RunVia(answer, l0, call);
    ClassLikeRun(answer, l0, call);
    AllAnsweredPrefix(answer, via.log, l0, |via.log| - 1);
  }

  /** The rest of the bracket keeps stopping at the first rejection. */
  lemma AfterViaSteps(answer: seq<Statement> -> Response, log: seq<Statement>, via: Outcome<seq<JsValue>>, u: UpdateStatement,
                      clientMutationId: JsValue)
    requires |log| < |via.log| && AllAnswered(answer, via.log, |log|, |via.log| - 1)
    requires via.result.Ok? <==> answer(via.log).Rows?
    ensures var o := AfterVia(answer, via, u, clientMutationId);
      var n := |o.log|;
      n >= |log| + 2
      && (o.result.Ok? ==> AllAnswered(answer, o.log, |log|, n))
      && (o.result.Err? ==> answer(o.log[..n - 1]).Failed? && AllAnswered(answer, o.log, |log|, n - 2))
  {
    if via.result.Err? {
      assert (via.log + [Rollback])[..|via.log|] == via.log;
      AllAnsweredExtend(answer, via.log, Rollback, |log|, |via.log| - 1);
    } else {
      AllAnsweredLast(answer, via.log, |log|);
      var l2 := via.log + [Update(u)];
      AllAnsweredExtend(answer, via.log, Update(u), |log|, |via.log|);
      if answer(l2).Failed? {
        assert (l2 + [Rollback])[..|l2|] == l2;
        AllAnsweredExtend(answer, l2, Rollback, |log|, |via.log|);
      } else {
        AllAnsweredLast(answer, l2, |log|);
        var l3 := l2 + [Release];
        AllAnsweredExtend(answer, l2, Release, |log|, |l2|);
        if answer(l3).Failed? {
          assert (l3 + [Rollback])[..|l3|] == l3;
          AllAnsweredExtend(answer, l3, Rollback, |log|, |l2|);
        } else {
          AllAnsweredLast(answer, l3, |log|);
        }
      }
    }
  }

  /**
   * Once built, the resolver stops at the first rejection after the history:
   * a run that returns had every statement it sent answered with rows, and a
   * rejection anywhere before the last statement is followed by exactly one
   * statement, the ROLLBACK, and makes the run throw.
   */
  lemma FirstRejectionRollsBack(answer: seq<Statement> -> Response, log: seq<Statement>, cat: Catalog, field: MutationField,
                                input: Input, resultQuery: Statement, counter: nat)
    requires BuildUpdate(cat, field, input.list, Symbol(counter + 1), Symbol(counter + 2)).Ok?
    ensures var o := ResolveRun(answer, log, cat, field, input, resultQuery, counter);
      forall k :: |log| < k <= |o.log| && answer(o.log[..k]).Failed? ==>
        o.result.Err? && (k < |o.log| ==> k == |o.log| - 1 && o.log[k] == Rollback)
  {
    var u := BuildUpdate(cat, field, input.list, Symbol(counter + 1), Symbol(counter + 2)).value;
    StatementShape(cat, field, input.list, Symbol(counter + 1), Symbol(counter + 2));
    var call := ResolverCall(field, u, resultQuery, counter);
    BracketSteps(answer, log, u, call, input.clientMutationId);
    BracketFraming(answer, log, u, call, input.clientMutationId);
  }

  /** A refused SAVEPOINT is rolled back at once and the run throws: nothing else is sent. */
  lemma SavepointRefused(answer: seq<Statement> -> Response, log: seq<Statement>, cat: Catalog, field: MutationField, input: Input,
                         resultQuery: Statement, counter: nat)
    requires BuildUpdate(cat, field, input.list, Symbol(counter + 1), Symbol(counter + 2)).Ok?
    requires answer(log + [Savepoint]).Failed?
    ensures var o := ResolveRun(answer, log, cat, field, input, resultQuery, counter);
      o.log == log + [Savepoint, Rollback]
      && (answer(o.log).Rows? ==> o.result == Err(Db(answer(log + [Savepoint]).error)))
      && (answer(o.log).Failed? ==> o.result == Err(Db(answer(o.log).error)))
  {
    assert log + [Savepoint] + [Rollback] == log + [Savepoint, Rollback];
  }
}
