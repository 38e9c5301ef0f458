/**
 * The JavaScript values the plugin handles: result rows of the PostgreSQL
 * client, GraphQL input objects (the update patches) and the marker object
 * `{__isNull: true}`. An object is an ordered list of fields, as JavaScript
 * keeps property insertion order for string keys. (Keys that look like array
 * indices are listed first in numeric order by `Object.keys`; they do not
 * arise here: a row's keys are SQL column names such as `text`, and a patch's
 * keys are GraphQL field names, which cannot start with a digit.)
 */
module Js {
  import opened Wrappers

  datatype JsValue =
    | Null
    | Undefined
    | Bool(b: bool)
    | Number(n: int)
    | Text(s: string)
    | Object(row: Row)

  datatype Field = Field(name: string, value: JsValue)

  /** A JavaScript object. Assigning a property twice keeps the later value. */
  datatype Row = Row(fields: seq<Field>)

  /** The object a row of the void path or of the merge stands for; `null` rows become `Null`. */
  function AsJs(rows: seq<Option<Row>>): (r: seq<JsValue>)
    ensures |r| == |rows|
    ensures forall i :: 0 <= i < |rows| ==> (r[i] == Null <==> rows[i].None?)
    ensures forall i :: 0 <= i < |rows| && rows[i].Some? ==> r[i] == Object(rows[i].value)
  {
    seq(|rows|, i requires 0 <= i < |rows| => if rows[i].Some? then Object(rows[i].value) else Null)
  }

  /** `obj[key]`: the value of the last field with that name, `undefined` when there is none. */
  function Get(fields: seq<Field>, key: string): (v: JsValue)
    ensures (forall i :: 0 <= i < |fields| ==> fields[i].name != key) ==> v == Undefined
    ensures forall i :: 0 <= i < |fields| && fields[i].name == key
                        && (forall j :: i < j < |fields| ==> fields[j].name != key)
                        ==> v == fields[i].value
  {
    if fields == [] then Undefined
    else if fields[|fields| - 1].name == key then fields[|fields| - 1].value
    else
      var front := fields[..|fields| - 1];
      assert forall i :: 0 <= i < |front| ==> front[i] == fields[i];
      Get(front, key)
  }

  /** `Object.keys(obj)`: every field name once, in order of first assignment. */
  function Keys(fields: seq<Field>): (ks: seq<string>)
    ensures forall i, j :: 0 <= i < j < |ks| ==> ks[i] != ks[j]
    ensures forall k :: k in ks <==> exists i :: 0 <= i < |fields| && fields[i].name == k
    ensures |fields| > 0 ==> |ks| > 0 && ks[0] == fields[0].name
  {
    if fields == [] then []
    else
      var front := Keys(fields[..|fields| - 1]);
      var last := fields[|fields| - 1].name;
      assert forall i :: 0 <= i < |fields| - 1 ==> fields[..|fields| - 1][i] == fields[i];
      if last in front then front else front + [last]
  }

  /** A key listed before another was first assigned before the other ever was. */
  lemma {:induction false} KeysFirstAssignmentOrder(fields: seq<Field>, i: nat, j: nat, p: nat)
    requires i < j < |Keys(fields)| && p < |fields| && fields[p].name == Keys(fields)[j]
    ensures exists q :: 0 <= q < p && fields[q].name == Keys(fields)[i]
  {
    var front := fields[..|fields| - 1];
    var last := fields[|fields| - 1].name;
    var fk := Keys(front);
    var ks := Keys(fields);
    assert forall q :: 0 <= q < |front| ==> front[q] == fields[q];
    if j < |fk| {
      assert ks[i] == fk[i] && ks[j] == fk[j];
      if p < |front| {
        KeysFirstAssignmentOrder(front, i, j, p);
      } else {
        assert fk[j] in fk;
        var p' :| 0 <= p' < |front| && front[p'].name == fk[j];
        KeysFirstAssignmentOrder(front, i, j, p');
      }
    } else {
      assert last !in fk && ks == fk + [last] && ks[i] == fk[i];
      assert fk[i] in fk;
      var q :| 0 <= q < |front| && front[q].name == fk[i];
      assert p == |front|;
    }
  }

  /** The object `{__isNull: true}` that stands for a row whose serialized value was SQL `null`. */
  const NullMarker: JsValue := Object(Row([Field("__isNull", Bool(true))]))
}
