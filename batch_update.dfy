/**
 * The statement the `update<Table>s` resolver builds (index.js:332-371): one
 * UPDATE joining the table with an inline VALUES list, one VALUES row per
 * batch item. Building it reads properties of `null`/`undefined` in several
 * places; each such `TypeError` is an error result here.
 */
module BatchUpdate {
  import opened Wrappers
  import opened Js
  import opened Sql
  import opened Client
  import opened Introspection
  import opened UpdateSemantics

  /** One element of the input list: `{id, patch}`. */
  datatype BatchItem = BatchItem(id: JsValue, patch: Row)

  /** `sql.identifier(type.namespaceName, type.name)`. */
  function TypeName(t: PgType): Name {
    Ident([t.namespaceName, t.name])
  }

  /** The index of the first `null` item, if any. */
  function FirstNullItem(items: seq<Option<BatchItem>>, from: nat): (r: Option<nat>)
    requires from <= |items|
    ensures r.None? <==> forall i :: from <= i < |items| ==> items[i].Some?
    ensures r.Some? ==> from <= r.value < |items| && items[r.value].None?
    ensures r.Some? ==> forall i :: from <= i < r.value ==> items[i].Some?
    decreases |items| - from
  {
    if from == |items| then None
    else if items[from].None? then Some(from)
    else FirstNullItem(items, from + 1)
  }

  /** `Object.keys(inputData[0].patch)`: the updated fields, taken from the first item alone. */
  function Columns(items: seq<Option<BatchItem>>): seq<string>
    requires |items| > 0 && items[0].Some?
  {
    Keys(items[0].value.patch.fields)
  }

  /** The VALUES row of one item: the converted id, then the converted patch values in column order. */
  function ValuesRow(item: BatchItem, pk: Attribute, columns: seq<string>, attrs: map<string, Attribute>): seq<Param>
    requires forall c :: c in columns ==> c in attrs
  {
    [Converted(item.id, pk.pgType)]
    + seq(|columns|, k requires 0 <= k < |columns| => Converted(Get(item.patch.fields, columns[k]), attrs[columns[k]].pgType))
  }

  /** What must hold for the statement to be built without a `TypeError`. */
  predicate Buildable(cat: Catalog, field: MutationField, list: Option<seq<Option<BatchItem>>>) {
    list.Some? && |list.value| > 0
    && (forall i :: 0 <= i < |list.value| ==> list.value[i].Some?)
    && PrimaryKey(cat, field.table).Some?
    && (forall c :: c in Columns(list.value) ==> c in field.attrByFieldName)
    && field.table.namespace.Some?
  }

  /** `mutationQuery`, with the errors in the order the source runs into them. */
  function BuildUpdate(cat: Catalog, field: MutationField, list: Option<seq<Option<BatchItem>>>, tableTag: Name, subTableTag: Name)
    : (r: Result<UpdateStatement, Fault>)
    ensures r.Ok? <==> Buildable(cat, field, list)
  {
    if list.None? then Err(MissingList)
    else
      var inputData := list.value;
      if |inputData| == 0 then Err(EmptyBatch)
      else if inputData[0].None? then Err(NullItem(0))
      else
        var columns := Columns(inputData);
        var attrs := field.attrByFieldName;
        var t := field.table;
        match PrimaryKeyConstraint(cat, t)
        case None => Err(NoPrimaryKeyConstraint)
        case Some(con) =>
          var primaryKey := KeyAttribute(cat, t, con);
          match First(columns, (c: string) => c !in attrs)
          case Some(c) => Err(UnknownColumn(c))
          case None =>
            if primaryKey.None? then Err(NoPrimaryKeyAttribute)
            else
              var pk := primaryKey.value;
              match FirstNullItem(inputData, 1)
              case Some(i) => Err(NullItem(i))
              case None =>
                if t.namespace.None? then Err(NoNamespace)
                else
                  var names := seq(|columns|, k requires 0 <= k < |columns| => attrs[columns[k]].name);
                  Ok(UpdateStatement(
                    Ident([t.namespace.value.name, t.name]),
                    tableTag,
                    seq(|columns|, k requires 0 <= k < |columns| =>
                      Assignment(names[k], subTableTag, names[k], TypeName(attrs[columns[k]].pgType))),
                    seq(|inputData|, i requires 0 <= i < |inputData| => ValuesRow(inputData[i].value, pk, columns, attrs)),
                    subTableTag,
                    ["id"] + names,
                    pk.name,
                    "id",
                    Ident([pk.pgType.name])))
  }

  /**
   * The statement's shape: it updates the table by its namespace-qualified name;
   * it has one SET assignment per column of the first item, in that order, each
   * cast to the column's namespace-qualified type; one VALUES row per item, in
   * batch order, holding the converted id and then the converted patch values;
   * and its WHERE clause casts `id` to the key type's unqualified name.
   */
  lemma StatementShape(cat: Catalog, field: MutationField, list: Option<seq<Option<BatchItem>>>, tableTag: Name, subTableTag: Name)
    requires BuildUpdate(cat, field, list, tableTag, subTableTag).Ok?
    ensures var u := BuildUpdate(cat, field, list, tableTag, subTableTag).value;
      var items := list.value;
      var columns := Columns(items);
      var attrs := field.attrByFieldName;
      var pk := PrimaryKey(cat, field.table).value;
      (forall c :: c in columns ==> c in attrs)
      && u.target == Ident([field.table.namespace.value.name, field.table.name])
      && u.alias == tableTag && u.source == subTableTag
      && |u.assignments| == |columns|
      && (forall k :: 0 <= k < |columns| ==>
            u.assignments[k] == Assignment(attrs[columns[k]].name, subTableTag, attrs[columns[k]].name,
                                           Ident([attrs[columns[k]].pgType.namespaceName, attrs[columns[k]].pgType.name])))
      && |u.sourceColumns| == |columns| + 1 && u.sourceColumns[0] == "id"
      && (forall k :: 0 <= k < |columns| ==> u.sourceColumns[k + 1] == attrs[columns[k]].name)
      && |u.rows| == |items|
      && (forall i :: 0 <= i < |items| ==>
            |u.rows[i]| == |columns| + 1 && u.rows[i][0] == Converted(items[i].value.id, pk.pgType)
            && forall k :: 0 <= k < |columns| ==>
                 u.rows[i][k + 1] == Converted(Get(items[i].value.patch.fields, columns[k]), attrs[columns[k]].pgType))
      && u.keyColumn == pk.name && u.keySource == "id" && u.keyCast == Ident([pk.pgType.name])
  {
    var items := list.value;
    var columns := Columns(items);
    var attrs := field.attrByFieldName;
    var u := BuildUpdate(cat, field, list, tableTag, subTableTag).value;
    forall i | 0 <= i < |items|
      ensures |u.rows[i]| == |columns| + 1
      ensures forall k :: 0 <= k < |columns| ==>
        u.rows[i][k + 1] == Converted(Get(items[i].value.patch.fields, columns[k]), attrs[columns[k]].pgType)
    {
      assert u.rows[i] == ValuesRow(items[i].value, PrimaryKey(cat, field.table).value, columns, attrs);
    }
  }

  /**
   * The columns come from the first item alone: a later item whose patch lacks
   * one of them contributes `gql2pg(undefined, type)` in that column.
   */
  lemma MissingFieldIsUndefined(cat: Catalog, field: MutationField, list: Option<seq<Option<BatchItem>>>, tableTag: Name, subTableTag: Name, i: nat, k: nat)
    requires BuildUpdate(cat, field, list, tableTag, subTableTag).Ok?
    requires i < |list.value| && k < |Columns(list.value)|
    requires forall j :: 0 <= j < |list.value[i].value.patch.fields| ==> list.value[i].value.patch.fields[j].name != Columns(list.value)[k]
    ensures var u := BuildUpdate(cat, field, list, tableTag, subTableTag).value;
      u.rows[i][k + 1] == Converted(Undefined, field.attrByFieldName[Columns(list.value)[k]].pgType)
  {
    StatementShape(cat, field, list, tableTag, subTableTag);
  }

  /** The column names written: updated columns are pairwise different and none is called `id`. */
  predicate DistinctTargets(columns: seq<string>, attrs: map<string, Attribute>)
    requires forall c :: c in columns ==> c in attrs
  {
    (forall k :: 0 <= k < |columns| ==> attrs[columns[k]].name != "id")
    && (forall k, l :: 0 <= k < l < |columns| ==> attrs[columns[k]].name != attrs[columns[l]].name)
  }

  /** A built statement with distinct target names lines its columns up. */
  lemma BuiltWellFormed(cat: Catalog, field: MutationField, list: Option<seq<Option<BatchItem>>>, tableTag: Name, subTableTag: Name)
    requires BuildUpdate(cat, field, list, tableTag, subTableTag).Ok?
    requires DistinctTargets(Columns(list.value), field.attrByFieldName)
    ensures WellFormed(BuildUpdate(cat, field, list, tableTag, subTableTag).value)
  {
    StatementShape(cat, field, list, tableTag, subTableTag);
    var u := BuildUpdate(cat, field, list, tableTag, subTableTag).value;
    var columns := Columns(list.value);
    var attrs := field.attrByFieldName;
    assert |u.sourceColumns| == |u.assignments| + 1;
    forall i, j | 0 <= i < j < |u.sourceColumns| ensures u.sourceColumns[i] != u.sourceColumns[j] {
      assert u.sourceColumns[j] == attrs[columns[j - 1]].name;
      if i > 0 {
        assert u.sourceColumns[i] == attrs[columns[i - 1]].name;
      }
    }
    forall k | 0 <= k < |u.assignments| ensures u.assignments[k].sourceColumn == u.sourceColumns[k + 1] {
      assert u.assignments[k].sourceColumn == attrs[columns[k]].name;
    }
    forall k, l | 0 <= k < l < |u.assignments| ensures u.assignments[k].column != u.assignments[l].column {
      assert u.assignments[k].column == attrs[columns[k]].name;
      assert u.assignments[l].column == attrs[columns[l]].name;
    }
  }

  /**
   * The join: a stored row joins with VALUES row `i` exactly when its primary
   * key equals item `i`'s converted id cast to the key type. This needs the
   * written columns to have different names and none to be called `id`, which
   * would clash with the VALUES list's own `id` column.
   */
  lemma UpdateJoins<V>(cat: Catalog, field: MutationField, list: Option<seq<Option<BatchItem>>>, tableTag: Name, subTableTag: Name,
                       row: map<string, V>, cast: (Param, Name) -> V, i: nat)
    requires BuildUpdate(cat, field, list, tableTag, subTableTag).Ok?
    requires DistinctTargets(Columns(list.value), field.attrByFieldName)
    requires i < |list.value|
    ensures var u := BuildUpdate(cat, field, list, tableTag, subTableTag).value;
      var pk := PrimaryKey(cat, field.table).value;
      Matches(u, row, u.rows[i], cast) <==>
        pk.name in row && row[pk.name] == cast(Converted(list.value[i].value.id, pk.pgType), Ident([pk.pgType.name]))
  {
    StatementShape(cat, field, list, tableTag, subTableTag);
    BuiltWellFormed(cat, field, list, tableTag, subTableTag);
    MatchesKey(BuildUpdate(cat, field, list, tableTag, subTableTag).value, row, i, cast);
  }

  /**
   * A stored row joined (first) with item `i`: every updated column is set to
   * that item's converted patch value cast to the column's type, the row gains
   * exactly those columns, and every other column keeps its value.
   */
  lemma UpdateWrites<V>(cat: Catalog, field: MutationField, list: Option<seq<Option<BatchItem>>>, tableTag: Name, subTableTag: Name,
                        row: map<string, V>, cast: (Param, Name) -> V, i: nat)
    requires BuildUpdate(cat, field, list, tableTag, subTableTag).Ok?
    requires DistinctTargets(Columns(list.value), field.attrByFieldName)
    requires FirstMatch(BuildUpdate(cat, field, list, tableTag, subTableTag).value, row, cast, 0) == Some(i)
    ensures var u := BuildUpdate(cat, field, list, tableTag, subTableTag).value;
      var columns := Columns(list.value);
      var attrs := field.attrByFieldName;
      var after := UpdatedRow(u, row, cast);
      i < |list.value|
      && (forall k :: 0 <= k < |columns| ==>
            attrs[columns[k]].name in after
            && after[attrs[columns[k]].name]
               == cast(Converted(Get(list.value[i].value.patch.fields, columns[k]), attrs[columns[k]].pgType), TypeName(attrs[columns[k]].pgType)))
      && (forall key :: key in after <==> key in row || exists k :: 0 <= k < |columns| && attrs[columns[k]].name == key)
      && (forall key :: key in row && (forall k :: 0 <= k < |columns| ==> attrs[columns[k]].name != key) ==> after[key] == row[key])
  {
    StatementShape(cat, field, list, tableTag, subTableTag);
    BuiltWellFormed(cat, field, list, tableTag, subTableTag);
    AssignEffect(BuildUpdate(cat, field, list, tableTag, subTableTag).value, row, i, cast);
  }

  /**
   * For a field the plugin registered, the key and the namespace checks never
   * fail: the statement is built exactly when the list is present, non-empty,
   * has no `null` item and the first patch names only known fields.
   */
  lemma RegisteredBuilds(cat: Catalog, host: Host, k: string, list: Option<seq<Option<BatchItem>>>, tableTag: Name, subTableTag: Name)
    requires k in Registered(cat, host)
    ensures var r := BuildUpdate(cat, Registered(cat, host)[k], list, tableTag, subTableTag);
      (r.Ok? <==>
         list.Some? && |list.value| > 0 && (forall i :: 0 <= i < |list.value| ==> list.value[i].Some?)
         && forall c :: c in Columns(list.value) ==> c in Registered(cat, host)[k].attrByFieldName)
      && (r.Err? ==> !r.error.NoPrimaryKeyConstraint? && !r.error.NoPrimaryKeyAttribute? && !r.error.NoNamespace?)
  {
    RegisteredTables(cat, host, k);
  }
}
