/**
 * `viaTemporaryTable` (index.js:5-142): run a mutation and read its rows back
 * through PostgreSQL's own text serialization. The serialize query turns each
 * returned row into one text value (or SQL `null`); the non-null values are
 * sent back in a second query that parses them into typed rows; the results
 * are merged back into the original row order, with `{__isNull: true}` where
 * the serialized value was `null`.
 */
module Codec {
  import opened Wrappers
  import opened Js
  import opened Sql
  import opened Client
  import opened Decimal

  /** The output arguments of a function returning a record (`pgRecordInfo`). */
  datatype RecordInfo = RecordInfo(outputArgNames: seq<string>, outputArgTypes: seq<PgType>)

  /** The arguments of one call; `typeId` is `sqlTypeIdentifier`, `None` when it is not given. */
  datatype CodecCall = CodecCall(
    typeId: Option<Name>,
    mutation: Statement,
    alias: Name,
    resultQuery: Statement,
    isPgClassLike: bool,
    recordInfo: Option<RecordInfo>,
    valuesAlias: Name)

  // ---------------------------------------------------------------------------
  // Column names of record results (index.js:64, index.js:106)

  /** The column PostgreSQL gives output argument `idx` (0-based): its name, or `column<idx+1>` when unnamed. */
  function OutputColumnName(name: string, idx: nat): (c: string)
    ensures c != ""
    ensures name != "" ==> c == name
  {
    if name != "" then name else "column" + NatToString(idx + 1)
  }

  /** An unnamed output argument is `column` followed by the decimal numeral of its 1-based position. */
  lemma DefaultColumnName(idx: nat)
    ensures var c := OutputColumnName("", idx);
      |c| > 6 && c[..6] == "column"
      && (forall i :: 6 <= i < |c| ==> IsDigit(c[i])) && c[6] != '0'
      && ParseDigits(c[6..]) == idx + 1
  {
    var c := OutputColumnName("", idx);
    assert c[6..] == NatToString(idx + 1);
    ParseNatToString(idx + 1);
  }

  /** Two unnamed output arguments at different positions never share a column name. */
  lemma DefaultColumnNamesDistinct(i: nat, j: nat)
    requires i != j
    ensures OutputColumnName("", i) != OutputColumnName("", j)
  {
    if OutputColumnName("", i) == OutputColumnName("", j) {
      DefaultColumnName(i);
      DefaultColumnName(j);
      assert false;
    }
  }

  function ColumnNames(names: seq<string>): (cs: seq<string>)
    ensures |cs| == |names|
    ensures forall i :: 0 <= i < |names| ==> cs[i] == OutputColumnName(names[i], i)
  {
    seq(|names|, i requires 0 <= i < |names| => OutputColumnName(names[i], i))
  }

  // ---------------------------------------------------------------------------
  // The two statements (index.js:47-69, index.js:87-117)

  /** `selectionField`: what the serialize query selects, by result kind. */
  function SelectionField(alias: Name, typeName: Name, isPgClassLike: bool, recordInfo: Option<RecordInfo>): (s: Selection)
    ensures isPgClassLike ==> s == NullCoalesced(alias)
    ensures !isPgClassLike && recordInfo.Some? ==>
      s.TextArray? && s.alias == alias && |s.columns| == |recordInfo.value.outputArgNames|
      && forall i :: 0 <= i < |s.columns| ==> s.columns[i] == OutputColumnName(recordInfo.value.outputArgNames[i], i)
    ensures !isPgClassLike && recordInfo.None? ==> s == CastRecord(alias, typeName)
  {
    if isPgClassLike then NullCoalesced(alias)
    else if recordInfo.Some? then TextArray(alias, ColumnNames(recordInfo.value.outputArgNames))
    else CastRecord(alias, typeName)
  }

  /** The slots of a record result; `outputArgTypes[idx]` must exist for every named argument. */
  function Slots(info: RecordInfo): (r: Result<seq<Slot>, Fault>)
    ensures r.Ok? <==> |info.outputArgNames| <= |info.outputArgTypes|
    ensures r.Err? ==> r.error == MissingOutputType(|info.outputArgTypes|)
    ensures r.Ok? ==> |r.value| == |info.outputArgNames|
    ensures r.Ok? ==> forall i :: 0 <= i < |r.value| ==>
      r.value[i] == Slot(i + 1,
                         Ident([info.outputArgTypes[i].namespaceName, info.outputArgTypes[i].name]),
                         OutputColumnName(info.outputArgNames[i], i))
  {
    if |info.outputArgNames| > |info.outputArgTypes| then Err(MissingOutputType(|info.outputArgTypes|))
    else
      Ok(seq(|info.outputArgNames|, i requires 0 <= i < |info.outputArgNames| =>
        Slot(i + 1,
             Ident([info.outputArgTypes[i].namespaceName, info.outputArgTypes[i].name]),
             OutputColumnName(info.outputArgNames[i], i))))
  }

  /** `convertFieldBack`: the statement that parses the non-null text values back into typed rows. */
  function ConvertFieldBack(c: CodecCall, typeName: Name, values: seq<JsValue>): (r: Result<Statement, Fault>)
    ensures c.isPgClassLike ==> r == Ok(UnnestComposite(typeName, values))
    ensures !c.isPgClassLike && c.recordInfo.None? ==> r == Ok(UnnestScalar(typeName, c.alias, values))
    ensures !c.isPgClassLike && c.recordInfo.Some? ==>
      match Slots(c.recordInfo.value)
      case Ok(slots) => r == Ok(ValuesRecord(slots, values, c.valuesAlias))
      case Err(f) => r == Err(f)
  {
    if c.isPgClassLike then Ok(UnnestComposite(typeName, values))
    else if c.recordInfo.Some? then
      match Slots(c.recordInfo.value)
      case Ok(slots) => Ok(ValuesRecord(slots, values, c.valuesAlias))
      case Err(f) => Err(f)
    else Ok(UnnestScalar(typeName, c.alias, values))
  }

  /** The serialize and reconstruction phases name each record column the same way. */
  lemma RecordColumnsAgree(c: CodecCall, typeName: Name, values: seq<JsValue>)
    requires !c.isPgClassLike && c.recordInfo.Some?
    requires ConvertFieldBack(c, typeName, values).Ok?
    ensures var sel := SelectionField(c.alias, typeName, c.isPgClassLike, c.recordInfo);
      var back := ConvertFieldBack(c, typeName, values).value;
      back.ValuesRecord? && |sel.columns| == |back.slots|
      && forall i :: 0 <= i < |back.slots| ==> back.slots[i].column == sel.columns[i] && back.slots[i].position == i + 1
  {
  }

  // ---------------------------------------------------------------------------
  // Raw values and the non-null filter (index.js:79-85)

  /** `rows.find(row => row !== null)`. */
  function FirstNonNull(rows: seq<Option<Row>>): (r: Option<Row>)
    ensures r.None? <==> forall i :: 0 <= i < |rows| ==> rows[i].None?
    ensures r.Some? ==> exists i :: 0 <= i < |rows| && rows[i] == r && forall j :: 0 <= j < i ==> rows[j].None?
  {
    if rows == [] then None
    else if rows[0].Some? then rows[0]
    else
      var r := FirstNonNull(rows[1..]);
      assert forall i :: 0 <= i < |rows| - 1 ==> rows[1..][i] == rows[i + 1];
      r
  }

  /** `firstKey`: the first key of the first non-null row; `None` stands for `undefined`. */
  function FirstKey(rows: seq<Option<Row>>): (k: Option<string>)
    ensures k.None? <==> FirstNonNull(rows).None? || FirstNonNull(rows).value.fields == []
    ensures k.Some? ==> FirstNonNull(rows).Some? && k.value == FirstNonNull(rows).value.fields[0].name
  {
    match FirstNonNull(rows)
    case None => None
    case Some(row) => var ks := Keys(row.fields); if ks == [] then None else Some(ks[0])
  }

  /** A property key as JavaScript coerces it: `row[undefined]` reads the property "undefined". */
  function PropertyKey(k: Option<string>): string {
    if k.Some? then k.value else "undefined"
  }

  /** `rawValues`: one value per returned row, `null` for every `null` row. */
  function RawValues(rows: seq<Option<Row>>): (raw: seq<JsValue>)
    ensures |raw| == |rows|
    ensures forall i :: 0 <= i < |rows| && rows[i].None? ==> raw[i] == Null
    ensures forall i :: 0 <= i < |rows| && rows[i].Some? ==> raw[i] == Get(rows[i].value.fields, PropertyKey(FirstKey(rows)))
  {
    var key := PropertyKey(FirstKey(rows));
    seq(|rows|, i requires 0 <= i < |rows| => if rows[i].Some? then Get(rows[i].value.fields, key) else Null)
  }

  /** `values`: `rawValues.filter(rawValue => rawValue !== null)`. */
  function NonNull(raw: seq<JsValue>): (vs: seq<JsValue>)
    ensures |vs| <= |raw|
    ensures forall k :: 0 <= k < |vs| ==> vs[k] != Null
  {
    if raw == [] then []
    else (if raw[0] == Null then [] else [raw[0]]) + NonNull(raw[1..])
  }

  /** How many non-null values come before position `i`. */
  function Rank(raw: seq<JsValue>, i: nat): nat
    requires i <= |raw|
  {
    |NonNull(raw[..i])|
  }

  lemma {:induction false} NonNullAppend(a: seq<JsValue>, b: seq<JsValue>)
    ensures NonNull(a + b) == NonNull(a) + NonNull(b)
  {
    if a == [] {
      assert a + b == b;
    } else {
      assert (a + b)[1..] == a[1..] + b;
      NonNullAppend(a[1..], b);
    }
  }

  lemma RankFront(raw: seq<JsValue>, i: nat)
    requires i < |raw|
    ensures Rank(raw, i + 1) == (if raw[0] == Null then 0 else 1) + Rank(raw[1..], i)
  {
    assert raw[..i + 1] == [raw[0]] + raw[1..][..i];
    NonNullAppend([raw[0]], raw[1..][..i]);
  }

  /** The non-null value at position `i` is the `Rank(raw, i)`-th element of the filtered list. */
  lemma NonNullAt(raw: seq<JsValue>, i: nat)
    requires i < |raw| && raw[i] != Null
    ensures Rank(raw, i) < |NonNull(raw)| && NonNull(raw)[Rank(raw, i)] == raw[i]
  {
    assert raw == raw[..i] + ([raw[i]] + raw[i + 1..]);
    NonNullAppend(raw[..i], [raw[i]] + raw[i + 1..]);
    NonNullAppend([raw[i]], raw[i + 1..]);
  }

  /** Later non-null values come later in the filtered list: the filter keeps the original order. */
  lemma RankIncreasing(raw: seq<JsValue>, i: nat, j: nat)
    requires i < j <= |raw| && raw[i] != Null
    ensures Rank(raw, i) < Rank(raw, j)
  {
    assert raw[..j] == raw[..i] + ([raw[i]] + raw[i + 1..j]);
    NonNullAppend(raw[..i], [raw[i]] + raw[i + 1..j]);
    NonNullAppend([raw[i]], raw[i + 1..j]);
  }

  /** Every element of the filtered list is some non-null position's value: nothing else is kept. */
  lemma {:induction false} NonNullOnto(raw: seq<JsValue>, k: nat)
    requires k < |NonNull(raw)|
    ensures exists i :: 0 <= i < |raw| && raw[i] != Null && Rank(raw, i) == k
  {
    assert raw != [];
    if raw[0] != Null && k == 0 {
      assert raw[..0] == [];
      assert Rank(raw, 0) == 0;
    } else {
      var k' := if raw[0] == Null then k else k - 1;
      NonNullOnto(raw[1..], k');
      var i' :| 0 <= i' < |raw| - 1 && raw[1..][i'] != Null && Rank(raw[1..], i') == k';
      RankFront(raw, i');
      assert raw[i' + 1] != Null && Rank(raw, i' + 1) == k;
    }
  }

  /** No values survive the filter exactly when every raw value is null. */
  lemma NonNullEmpty(raw: seq<JsValue>)
    ensures NonNull(raw) == [] <==> forall i :: 0 <= i < |raw| ==> raw[i] == Null
  {
    if NonNull(raw) == [] {
      forall i | 0 <= i < |raw| ensures raw[i] == Null {
        if raw[i] != Null { NonNullAt(raw, i); }
      }
    } else {
      NonNullOnto(raw, 0);
    }
  }

  // ---------------------------------------------------------------------------
  // The merge (index.js:130-139)

  /** What `queue.shift()` returns: the first element, `undefined` on an empty array. */
  function Head(queue: seq<JsValue>): JsValue {
    if queue == [] then Undefined else queue[0]
  }

  /** What is left of the array after `queue.shift()`. */
  function Tail(queue: seq<JsValue>): seq<JsValue> {
    if queue == [] then [] else queue[1..]
  }

  /** `results[k]`, `undefined` past the end. */
  function At(results: seq<JsValue>, k: nat): JsValue {
    if k < |results| then results[k] else Undefined
  }

  /** `rawValues.map(rawValue => rawValue === null ? {__isNull: true} : results.shift())`. */
  function Merge(raw: seq<JsValue>, results: seq<JsValue>): (out: seq<JsValue>)
    ensures |out| == |raw|
  {
    if raw == [] then []
    else if raw[0] == Null then [NullMarker] + Merge(raw[1..], results)
    else [Head(results)] + Merge(raw[1..], Tail(results))
  }

  /**
   * Position `i` of the merge holds the marker when its raw value is null and
   * otherwise the `Rank(raw, i)`-th reconstructed row (`undefined` once they run out).
   */
  lemma {:induction false} MergeAt(raw: seq<JsValue>, results: seq<JsValue>, i: nat)
    requires i < |raw|
    ensures Merge(raw, results)[i] == if raw[i] == Null then NullMarker else At(results, Rank(raw, i))
  {
    if i == 0 {
      assert raw[..0] == [];
    } else {
      var rest := if raw[0] == Null then results else Tail(results);
      MergeAt(raw[1..], rest, i - 1);
      RankFront(raw, i - 1);
    }
  }

  /**
   * When the reconstruction returns one row per non-null value, the merge
   * places each of them exactly once, in order, at the positions of the
   * non-null values.
   */
  lemma ReconstructedRowsPlaced(raw: seq<JsValue>, results: seq<JsValue>, k: nat)
    requires |results| == |NonNull(raw)| && k < |results|
    ensures exists i :: 0 <= i < |raw| && raw[i] != Null && Rank(raw, i) == k && Merge(raw, results)[i] == results[k]
  {
    NonNullOnto(raw, k);
    var i :| 0 <= i < |raw| && raw[i] != Null && Rank(raw, i) == k;
    MergeAt(raw, results, i);
  }

  /** The merge loop, consuming the reconstructed rows from the front as a queue. */
  method MergeRows(rawValues: seq<JsValue>, filteredValuesResults: seq<JsValue>) returns (finalRows: seq<JsValue>)
    ensures finalRows == Merge(rawValues, filteredValuesResults)
    ensures |finalRows| == |rawValues|
    ensures forall i :: 0 <= i < |rawValues| ==>
      finalRows[i] == if rawValues[i] == Null then NullMarker else At(filteredValuesResults, Rank(rawValues, i))
  {
    var queue := filteredValuesResults;
    finalRows := [];
    var i := 0;
    while i < |rawValues|
      invariant 0 <= i <= |rawValues|
      invariant finalRows + Merge(rawValues[i..], queue) == Merge(rawValues, filteredValuesResults)
    {
      assert rawValues[i..][1..] == rawValues[i + 1..];
      var item;
      if rawValues[i] == Null {
        item := NullMarker;
      } else if queue == [] {
        item := Undefined;
      } else {
        item := queue[0];
        queue := queue[1..];
      }
      finalRows := finalRows + [item];
      i := i + 1;
    }
    assert rawValues[i..] == [];
    forall j | 0 <= j < |rawValues|
      ensures finalRows[j] == if rawValues[j] == Null then NullMarker else At(filteredValuesResults, Rank(rawValues, j))
    {
      MergeAt(rawValues, filteredValuesResults, j);
    }
  }

  // ---------------------------------------------------------------------------
  // The whole protocol (index.js:25-141)

  function SerializeQuery(c: CodecCall, typeName: Name): Statement {
    With(c.alias, c.mutation, SelectText(SelectionField(c.alias, typeName, c.isPgClassLike, c.recordInfo), c.alias))
  }

  /** What one call sends, from session history `log`, and what it returns or throws. */
  function RunVia(answer: seq<Statement> -> Response, log: seq<Statement>, c: CodecCall): Outcome<seq<JsValue>> {
    if c.typeId.None? then
      var l := log + [With(c.alias, c.mutation, c.resultQuery)];
      match answer(l)
      case Failed(e) => Outcome(l, Err(Db(e)))
      case Rows(rows) => Outcome(l, Ok(AsJs(rows)))
    else
      var l1 := log + [SerializeQuery(c, c.typeId.value)];
      match answer(l1)
      case Failed(e) => Outcome(l1, Err(Db(e)))
      case Rows(rows) =>
        var raw := RawValues(rows);
        var values := NonNull(raw);
        match ConvertFieldBack(c, c.typeId.value, values)
        case Err(f) => Outcome(l1, Err(Thrown(f)))
        case Ok(back) =>
          if |values| > 0 then
            var l2 := l1 + [With(c.alias, back, c.resultQuery)];
            match answer(l2)
            case Failed(e) => Outcome(l2, Err(Db(e)))
            case Rows(rows2) => Outcome(l2, Ok(Merge(raw, AsJs(rows2))))
          else Outcome(l1, Ok(Merge(raw, [])))
  }

  method ViaTemporaryTable(client: PgClient, c: CodecCall) returns (r: Result<seq<JsValue>, Error>)
    modifies client
    ensures Outcome(client.log, r) == RunVia(client.answer, old(client.log), c)
  {
    if c.typeId.None? {
      // It returns void: only the mutation (with the caller's projection) runs.
      var response := client.Query(With(c.alias, c.mutation, c.resultQuery));
      if response.Failed? {
        return Err(Db(response.error));
      }
      return Ok(AsJs(response.rows));
    }
    var typeName := c.typeId.value;
    var result := client.Query(SerializeQuery(c, typeName));
    if result.Failed? {
      return Err(Db(result.error));
    }
    var rawValues := RawValues(result.rows);
    var values := NonNull(rawValues);
    var convertFieldBack := ConvertFieldBack(c, typeName, values);
    if convertFieldBack.Err? {
      return Err(Thrown(convertFieldBack.error));
    }
    var filteredValuesResults: seq<JsValue> := [];
    if |values| > 0 {
      var second := client.Query(With(c.alias, convertFieldBack.value, c.resultQuery));
      if second.Failed? {
        return Err(Db(second.error));
      }
      filteredValuesResults := AsJs(second.rows);
    }
    var finalRows := MergeRows(rawValues, filteredValuesResults);
    return Ok(finalRows);
  }

  // ---------------------------------------------------------------------------
  // Properties of the protocol

  /** Without a type identifier exactly one statement runs and its rows come back unchanged. */
  lemma VoidRunsOnce(answer: seq<Statement> -> Response, log: seq<Statement>, c: CodecCall)
    requires c.typeId.None?
    ensures var out := RunVia(answer, log, c);
      out.log == log + [With(c.alias, c.mutation, c.resultQuery)]
      && (answer(out.log).Rows? ==> out.result == Ok(AsJs(answer(out.log).rows)))
      && (answer(out.log).Failed? ==> out.result == Err(Db(answer(out.log).error)))
  {
  }

  /**
   * With a type identifier the serialize query runs first; the second query runs
   * exactly when at least one serialized value is non-null, and never otherwise;
   * it is the reconstruction of exactly the non-null values, in row order.
   */
  lemma SecondQueryOnlyForValues(answer: seq<Statement> -> Response, log: seq<Statement>, c: CodecCall)
    requires c.typeId.Some?
    ensures var out := RunVia(answer, log, c);
      var l1 := log + [SerializeQuery(c, c.typeId.value)];
      out.log[..|l1|] == l1
      && (|out.log| == |l1| || |out.log| == |l1| + 1)
      && (answer(l1).Rows? && ConvertFieldBack(c, c.typeId.value, NonNull(RawValues(answer(l1).rows))).Ok? ==>
            (|out.log| == |l1| + 1 <==> exists i :: 0 <= i < |answer(l1).rows| && RawValues(answer(l1).rows)[i] != Null))
      && (|out.log| == |l1| + 1 ==>
            answer(l1).Rows? && ConvertFieldBack(c, c.typeId.value, NonNull(RawValues(answer(l1).rows))).Ok?
            && out.log[|l1|] == With(c.alias, ConvertFieldBack(c, c.typeId.value, NonNull(RawValues(answer(l1).rows))).value, c.resultQuery))
  {
    var l1 := log + [SerializeQuery(c, c.typeId.value)];
    if answer(l1).Rows? {
      NonNullEmpty(RawValues(answer(l1).rows));
    }
  }

  /**
   * A successful round trip returns one entry per serialize-phase row: the
   * marker where the serialized value was null, and otherwise the reconstructed
   * row whose index is the number of non-null values before it.
   */
  lemma RoundTripShape(answer: seq<Statement> -> Response, log: seq<Statement>, c: CodecCall)
    requires c.typeId.Some?
    requires RunVia(answer, log, c).result.Ok?
    ensures var out := RunVia(answer, log, c);
      var l1 := log + [SerializeQuery(c, c.typeId.value)];
      var raw := RawValues(answer(l1).rows);
      var rebuilt := if |out.log| == |l1| then [] else AsJs(answer(out.log).rows);
      answer(l1).Rows?
      && |out.result.value| == |answer(l1).rows|
      && |rebuilt| == (if |out.log| == |l1| then 0 else |answer(out.log).rows|)
      && forall i :: 0 <= i < |raw| ==>
           out.result.value[i] == if raw[i] == Null then NullMarker else At(rebuilt, Rank(raw, i))
  {
    var out := RunVia(answer, log, c);
    var l1 := log + [SerializeQuery(c, c.typeId.value)];
    var raw := RawValues(answer(l1).rows);
    var rebuilt := if |out.log| == |l1| then [] else AsJs(answer(out.log).rows);
    assert out.result.value == Merge(raw, rebuilt);
    forall i | 0 <= i < |raw|
      ensures out.result.value[i] == if raw[i] == Null then NullMarker else At(rebuilt, Rank(raw, i))
    {
      MergeAt(raw, rebuilt, i);
    }
  }

  /** When the last statement sent was rejected, that rejection is the run's error. */
  lemma FailurePropagates(answer: seq<Statement> -> Response, log: seq<Statement>, c: CodecCall)
    requires answer(RunVia(answer, log, c).log).Failed?
    ensures var out := RunVia(answer, log, c);
      out.result == Err(Db(answer(out.log).error))
  {
  }

  /** A refused serialize query ends the run at once with its rejection: nothing else is sent. */
  lemma SerializeRefused(answer: seq<Statement> -> Response, log: seq<Statement>, c: CodecCall)
    requires c.typeId.Some?
    requires answer(log + [SerializeQuery(c, c.typeId.value)]).Failed?
    ensures var out := RunVia(answer, log, c);
      var l1 := log + [SerializeQuery(c, c.typeId.value)];
      out.log == l1 && out.result == Err(Db(answer(l1).error))
  {
  }

  /**
   * A run stops at the first rejection: every statement it sent before its
   * last one was answered with rows, and it returns only when its last
   * statement was answered with rows too.
   */
  lemma RunStopsAtRejection(answer: seq<Statement> -> Response, log: seq<Statement>, c: CodecCall)
    ensures var out := RunVia(answer, log, c);
      |log| < |out.log| <= |log| + 2 && out.log[..|log|] == log
      && AllAnswered(answer, out.log, |log|, |out.log| - 1)
      && (out.result.Ok? ==> answer(out.log).Rows?)
      && (answer(out.log).Failed? ==> out.result == Err(Db(answer(out.log).error)))
  {
    var out := RunVia(answer, log, c);
    if c.typeId.None? {
      assert out.log[..|log|] == log;
    } else {
      var l1 := log + [SerializeQuery(c, c.typeId.value)];
      assert l1[..|log|] == log;
      if |out.log| == |l1| + 1 {
        assert out.log[..|l1|] == l1;
        assert out.log[..|log|] == l1[..|log|];
        assert AllAnswered(answer, out.log, |log|, |out.log| - 1) by {
          assert out.log[..|log| + 1] == l1;
        }
      }
    }
  }

  /**
   * For a table type, which is what the mutation plugin passes: the run sends one
   * or two `with` statements after the history, the serialize query first; it
   * stops at the first rejection, and it fails only when the last statement it
   * sent was rejected, with that rejection.
   */
  lemma ClassLikeRun(answer: seq<Statement> -> Response, log: seq<Statement>, c: CodecCall)
    requires c.typeId.Some? && c.isPgClassLike
    ensures var out := RunVia(answer, log, c);
      out.log[..|log|] == log && |log| + 1 <= |out.log| <= |log| + 2
      && out.log[|log|] == SerializeQuery(c, c.typeId.value)
      && (forall j :: |log| <= j < |out.log| ==> out.log[j].With?)
      && AllAnswered(answer, out.log, |log|, |out.log| - 1)
      && (out.result.Ok? <==> answer(out.log).Rows?)
      && (out.result.Err? ==> out.result.error == Db(answer(out.log).error))
  {
    RunStopsAtRejection(answer, log, c);
    var l1 := log + [SerializeQuery(c, c.typeId.value)];
    var out := RunVia(answer, log, c);
    if |out.log| == |l1| + 1 {
      assert out.log[..|l1|] == l1;
    }
  }
}
