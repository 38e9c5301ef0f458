/**
 * Metadata resolution (index.js:178-227): which tables get an
 * `update<Table>s` mutation, the map from GraphQL field name to column
 * attribute, and the primary-key lookup. The two `reduce` calls that mutate
 * their accumulator are modelled as loops that update a map.
 */
module Introspection {
  import opened Wrappers
  import opened Sql

  datatype Namespace = Namespace(name: string)

  /** A `pg_class` entry (`introspectionResultsByKind.class`). */
  datatype Table = Table(
    id: int,
    namespace: Option<Namespace>,
    name: string,
    isSelectable: bool,
    isInsertable: bool,
    isUpdatable: bool)

  /** A column (`introspectionResultsByKind.attribute`) of the table with id `classId`. */
  datatype Attribute = Attribute(classId: int, num: int, name: string, pgType: PgType)

  /** A constraint; `kind` is `con.type`, `'p'` for a primary key. */
  datatype Constraint = Constraint(classId: int, kind: char, keyAttributeNums: seq<int>)

  /** `introspectionResultsByKind`. */
  datatype Catalog = Catalog(classes: seq<Table>, attributes: seq<Attribute>, constraints: seq<Constraint>)

  /**
   * What the registration asks of the schema being built, which is not part of
   * this model: whether the GraphQL table type exists, whether it has a field
   * of the given name, whether the patch type exists, and the inflector's names.
   */
  datatype Host = Host(
    hasTableType: Table -> bool,
    tableTypeHasField: (Table, string) -> bool,
    hasPatchType: Table -> bool,
    column: Attribute -> string,
    tableTypeName: Table -> string)

  /** The mutation field registered for one table: its resolver closes over these two. */
  datatype MutationField = MutationField(table: Table, attrByFieldName: map<string, Attribute>)

  // ---------------------------------------------------------------------------
  // `filter(…)[0]`

  /** `s.filter(p)[0]`: the first element satisfying `p`, `None` for `undefined`. */
  function First<T>(s: seq<T>, p: T -> bool): (r: Option<T>)
    ensures r.None? <==> forall i :: 0 <= i < |s| ==> !p(s[i])
    ensures r.Some? ==> exists i :: 0 <= i < |s| && s[i] == r.value && p(s[i]) && forall j :: 0 <= j < i ==> !p(s[j])
  {
    if s == [] then None
    else if p(s[0]) then Some(s[0])
    else
      var r := First(s[1..], p);
      assert forall i :: 0 <= i < |s| - 1 ==> s[1..][i] == s[i + 1];
      r
  }

  // ---------------------------------------------------------------------------
  // Table eligibility and the primary key

  /** The four `filter`s of index.js:179-182. */
  predicate Eligible(t: Table) {
    t.namespace.Some? && t.isSelectable && t.isInsertable && t.isUpdatable
  }

  /** `classes.filter(…)` with the four conditions, in catalog order. */
  function EligibleTables(ts: seq<Table>): seq<Table> {
    if ts == [] then []
    else EligibleTables(ts[..|ts| - 1]) + (if Eligible(ts[|ts| - 1]) then [ts[|ts| - 1]] else [])
  }

  /** The kept tables are exactly the catalog's tables that pass the four filters. */
  lemma {:induction false} EligibleTablesMembers(ts: seq<Table>)
    ensures var r := EligibleTables(ts);
      (forall i :: 0 <= i < |r| ==> r[i] in ts && Eligible(r[i]))
      && forall i :: 0 <= i < |ts| && Eligible(ts[i]) ==> ts[i] in r
  {
    if ts != [] {
      var front := ts[..|ts| - 1];
      var last := ts[|ts| - 1];
      EligibleTablesMembers(front);
      assert forall i :: 0 <= i < |front| ==> front[i] == ts[i];
      assert forall t :: t in front ==> t in ts;
      var rf := EligibleTables(front);
      var r := EligibleTables(ts);
      assert r == rf + (if Eligible(last) then [last] else []);
      assert forall i :: 0 <= i < |rf| ==> r[i] == rf[i];
    }
  }

  /** One position of the kept list holds a table of the catalog that passes the filters. */
  lemma EligibleTableAt(ts: seq<Table>, j: nat)
    requires j < |EligibleTables(ts)|
    ensures EligibleTables(ts)[j] in ts && Eligible(EligibleTables(ts)[j])
  {
    EligibleTablesMembers(ts);
  }

  /** `attribute.filter(attr => attr.classId === table.id)`, in catalog order. */
  function TableAttributes(attrs: seq<Attribute>, tableId: int): seq<Attribute> {
    if attrs == [] then []
    else TableAttributes(attrs[..|attrs| - 1], tableId) + (if attrs[|attrs| - 1].classId == tableId then [attrs[|attrs| - 1]] else [])
  }

  /** The table's attributes are exactly the catalog attributes with the table's id. */
  lemma {:induction false} TableAttributesMembers(attrs: seq<Attribute>, tableId: int)
    ensures var r := TableAttributes(attrs, tableId);
      (forall i :: 0 <= i < |r| ==> r[i] in attrs && r[i].classId == tableId)
      && forall i :: 0 <= i < |attrs| && attrs[i].classId == tableId ==> attrs[i] in r
  {
    if attrs != [] {
      var front := attrs[..|attrs| - 1];
      var last := attrs[|attrs| - 1];
      TableAttributesMembers(front, tableId);
      assert forall i :: 0 <= i < |front| ==> front[i] == attrs[i];
      assert forall a :: a in front ==> a in attrs;
      var rf := TableAttributes(front, tableId);
      var r := TableAttributes(attrs, tableId);
      assert r == rf + (if last.classId == tableId then [last] else []);
      assert forall i :: 0 <= i < |rf| ==> r[i] == rf[i];
    }
  }

  /** One position of the filtered list holds an attribute of the catalog that belongs to the table. */
  lemma TableAttributeAt(attrs: seq<Attribute>, tableId: int, j: nat)
    requires j < |TableAttributes(attrs, tableId)|
    ensures TableAttributes(attrs, tableId)[j] in attrs && TableAttributes(attrs, tableId)[j].classId == tableId
  {
    TableAttributesMembers(attrs, tableId);
  }

  /** The first constraint of the table whose type is `'p'`. */
  function PrimaryKeyConstraint(cat: Catalog, t: Table): Option<Constraint> {
    First(cat.constraints, (con: Constraint) => con.classId == t.id && con.kind == 'p')
  }

  /** The table's first attribute numbered like the constraint's first key attribute. */
  function KeyAttribute(cat: Catalog, t: Table, con: Constraint): Option<Attribute> {
    if con.keyAttributeNums == [] then None
    else First(cat.attributes, (a: Attribute) => a.classId == t.id && a.num == con.keyAttributeNums[0])
  }

  /** `primaryKey`: only the first attribute of a composite key is used. */
  function PrimaryKey(cat: Catalog, t: Table): Option<Attribute> {
    match PrimaryKeyConstraint(cat, t)
    case None => None
    case Some(con) => KeyAttribute(cat, t, con)
  }

  /**
   * The primary key is an attribute of the table, numbered like the first key
   * attribute of the table's first `'p'` constraint; there is none exactly when
   * the table has no such constraint, the constraint lists no attribute, or no
   * attribute of the table carries that number.
   */
  lemma PrimaryKeySelection(cat: Catalog, t: Table)
    ensures PrimaryKey(cat, t).Some? ==>
      var a := PrimaryKey(cat, t).value;
      var con := PrimaryKeyConstraint(cat, t).value;
      a.classId == t.id && a in cat.attributes && con in cat.constraints
      && con.classId == t.id && con.kind == 'p'
      && con.keyAttributeNums != [] && a.num == con.keyAttributeNums[0]
      && (forall j :: (0 <= j < |cat.attributes| && cat.attributes[j].classId == t.id
                       && cat.attributes[j].num == a.num) ==> a in cat.attributes[..j + 1])
    ensures PrimaryKey(cat, t).None? <==>
      (forall i :: 0 <= i < |cat.constraints| ==> !(cat.constraints[i].classId == t.id && cat.constraints[i].kind == 'p'))
      || (var con := PrimaryKeyConstraint(cat, t).value;
          con.keyAttributeNums == []
          || forall i :: 0 <= i < |cat.attributes| ==>
               !(cat.attributes[i].classId == t.id && cat.attributes[i].num == con.keyAttributeNums[0]))
  {
    if PrimaryKey(cat, t).Some? {
      var a := PrimaryKey(cat, t).value;
      var con := PrimaryKeyConstraint(cat, t).value;
      var p := (x: Attribute) => x.classId == t.id && x.num == con.keyAttributeNums[0];
      var i :| 0 <= i < |cat.attributes| && cat.attributes[i] == a && p(cat.attributes[i])
               && forall j :: 0 <= j < i ==> !p(cat.attributes[j]);
      forall j | 0 <= j < |cat.attributes| && cat.attributes[j].classId == t.id && cat.attributes[j].num == a.num
        ensures a in cat.attributes[..j + 1]
      {
        assert p(cat.attributes[j]);
        assert i <= j;
        assert cat.attributes[..j + 1][i] == a;
      }
    }
  }

  // ---------------------------------------------------------------------------
  // The registration reduce

  /** The checks of index.js:184-227 that end in `return memo` when they fail. */
  predicate Registers(cat: Catalog, host: Host, t: Table) {
    host.hasTableType(t)
    && PrimaryKey(cat, t).Some?
    && host.tableTypeHasField(t, PrimaryKey(cat, t).value.name)
    && host.hasPatchType(t)
  }

  function FieldName(host: Host, t: Table): string {
    "update" + host.tableTypeName(t) + "s"
  }

  /** `attrs.reduce((memo, attr) => { memo[inflection.column(attr)] = attr; return memo; }, {})`. */
  function FieldIndex(attrs: seq<Attribute>, column: Attribute -> string): map<string, Attribute> {
    if attrs == [] then map[]
    else FieldIndex(attrs[..|attrs| - 1], column)[column(attrs[|attrs| - 1]) := attrs[|attrs| - 1]]
  }

  /** `attrByFieldName` of a table. */
  function AttrMap(cat: Catalog, host: Host, t: Table): map<string, Attribute> {
    FieldIndex(TableAttributes(cat.attributes, t.id), host.column)
  }

  /** `ts.reduce((memo, t) => { if (ok(t)) memo[key(t)] = val(t); return memo; }, {})`. */
  function IndexIf<T, V>(ts: seq<T>, ok: T -> bool, key: T -> string, val: T -> V): map<string, V> {
    if ts == [] then map[]
    else
      var memo := IndexIf(ts[..|ts| - 1], ok, key, val);
      var t := ts[|ts| - 1];
      if ok(t) then memo[key(t) := val(t)] else memo
  }

  /** The outer `reduce` over the tables `ts`: every table that passes the checks adds its field. */
  function RegisteredIn(cat: Catalog, host: Host, ts: seq<Table>): map<string, MutationField> {
    IndexIf(ts, (t: Table) => Registers(cat, host, t), (t: Table) => FieldName(host, t),
            (t: Table) => MutationField(t, AttrMap(cat, host, t)))
  }

  /** The mutation fields the plugin adds to the root mutation type. */
  function Registered(cat: Catalog, host: Host): map<string, MutationField> {
    RegisteredIn(cat, host, EligibleTables(cat.classes))
  }

  /** A field-name index holds exactly the field names that occur. */
  lemma {:induction false} FieldIndexKeys(attrs: seq<Attribute>, column: Attribute -> string, k: string)
    ensures k in FieldIndex(attrs, column) <==> exists i :: 0 <= i < |attrs| && column(attrs[i]) == k
  {
    if attrs != [] {
      var front := attrs[..|attrs| - 1];
      FieldIndexKeys(front, column, k);
      if k != column(attrs[|attrs| - 1]) && exists i :: 0 <= i < |attrs| && column(attrs[i]) == k {
        var i :| 0 <= i < |attrs| && column(attrs[i]) == k;
        assert front[i] == attrs[i];
      }
    }
  }

  /** Each entry of a field-name index is an attribute of the list stored under its own field name. */
  lemma {:induction false} FieldIndexValues(attrs: seq<Attribute>, column: Attribute -> string, k: string)
    requires k in FieldIndex(attrs, column)
    ensures FieldIndex(attrs, column)[k] in attrs && column(FieldIndex(attrs, column)[k]) == k
  {
    var front := attrs[..|attrs| - 1];
    if k != column(attrs[|attrs| - 1]) {
      FieldIndexValues(front, column, k);
      assert forall a :: a in front ==> a in attrs;
    }
  }

  /** The attribute that carries a field name last is the one the index keeps. */
  lemma {:induction false} FieldIndexLastWins(attrs: seq<Attribute>, column: Attribute -> string, i: nat)
    requires i < |attrs|
    requires forall j :: i < j < |attrs| ==> column(attrs[j]) != column(attrs[i])
    ensures column(attrs[i]) in FieldIndex(attrs, column) && FieldIndex(attrs, column)[column(attrs[i])] == attrs[i]
  {
    var front := attrs[..|attrs| - 1];
    if i < |attrs| - 1 {
      assert front[i] == attrs[i];
      assert forall j :: i < j < |front| ==> front[j] == attrs[j];
      FieldIndexLastWins(front, column, i);
    }
  }

  /**
   * `attrByFieldName` maps exactly the field names of the table's attributes,
   * each to an attribute of that table with that field name; a later attribute
   * with the same field name overwrites an earlier one.
   */
  lemma AttrMapContents(cat: Catalog, host: Host, t: Table)
    ensures var attrs := TableAttributes(cat.attributes, t.id);
      forall k :: k in AttrMap(cat, host, t) <==> exists i :: 0 <= i < |attrs| && host.column(attrs[i]) == k
    ensures var m := AttrMap(cat, host, t);
      forall k :: k in m ==> m[k] in cat.attributes && m[k].classId == t.id && host.column(m[k]) == k
    ensures var m := AttrMap(cat, host, t);
      var attrs := TableAttributes(cat.attributes, t.id);
      forall i :: 0 <= i < |attrs| && (forall j :: i < j < |attrs| ==> host.column(attrs[j]) != host.column(attrs[i])) ==>
        host.column(attrs[i]) in m && m[host.column(attrs[i])] == attrs[i]
  {
    var attrs := TableAttributes(cat.attributes, t.id);
    TableAttributesMembers(cat.attributes, t.id);
    forall k ensures k in FieldIndex(attrs, host.column) <==> exists i :: 0 <= i < |attrs| && host.column(attrs[i]) == k {
      FieldIndexKeys(attrs, host.column, k);
    }
    forall k | k in FieldIndex(attrs, host.column)
      ensures FieldIndex(attrs, host.column)[k] in cat.attributes && FieldIndex(attrs, host.column)[k].classId == t.id
      ensures host.column(FieldIndex(attrs, host.column)[k]) == k
    {
      FieldIndexValues(attrs, host.column, k);
      var j :| 0 <= j < |attrs| && attrs[j] == FieldIndex(attrs, host.column)[k];
      TableAttributeAt(cat.attributes, t.id, j);
    }
    forall i | 0 <= i < |attrs| && (forall j :: i < j < |attrs| ==> host.column(attrs[j]) != host.column(attrs[i]))
      ensures host.column(attrs[i]) in FieldIndex(attrs, host.column) && FieldIndex(attrs, host.column)[host.column(attrs[i])] == attrs[i]
    {
      FieldIndexLastWins(attrs, host.column, i);
    }
  }

  /** Among passing elements with the same key, the last one is kept. */
  lemma {:induction false} IndexIfLastWins<T, V>(ts: seq<T>, ok: T -> bool, key: T -> string, val: T -> V, i: nat)
    requires i < |ts| && ok(ts[i])
    requires forall j :: i < j < |ts| && ok(ts[j]) ==> key(ts[j]) != key(ts[i])
    ensures key(ts[i]) in IndexIf(ts, ok, key, val) && IndexIf(ts, ok, key, val)[key(ts[i])] == val(ts[i])
  {
    var front := ts[..|ts| - 1];
    if i < |ts| - 1 {
      assert front[i] == ts[i];
      assert forall j :: i < j < |front| ==> front[j] == ts[j];
      IndexIfLastWins(front, ok, key, val, i);
    }
  }

  /** The table passes every check and its mutation field is called `k`. */
  predicate RegistersUnder(cat: Catalog, host: Host, t: Table, k: string) {
    Registers(cat, host, t) && FieldName(host, t) == k
  }

  /** The registration over `ts` holds exactly the field names of the tables of `ts` that pass every check. */
  lemma {:induction false} RegisteredInKeys(cat: Catalog, host: Host, ts: seq<Table>, k: string)
    ensures k in RegisteredIn(cat, host, ts) <==> exists i :: 0 <= i < |ts| && RegistersUnder(cat, host, ts[i], k)
  {
    if ts != [] {
      var front := ts[..|ts| - 1];
      var last := ts[|ts| - 1];
      assert ts == front + [last];
      RegisteredInSnoc(cat, host, front, last);
      RegisteredInKeys(cat, host, front, k);
      assert forall i :: 0 <= i < |front| ==> front[i] == ts[i];
      if !RegistersUnder(cat, host, last, k)
         && exists i :: 0 <= i < |ts| && RegistersUnder(cat, host, ts[i], k) {
        var i :| 0 <= i < |ts| && RegistersUnder(cat, host, ts[i], k);
        assert i < |front|;
      }
    }
  }

  /** A mutation field is registered exactly under the field names of the eligible tables that pass every check. */
  lemma {:induction false} RegisteredKeys(cat: Catalog, host: Host, k: string)
    ensures var ts := EligibleTables(cat.classes);
      k in Registered(cat, host) <==> exists i :: 0 <= i < |ts| && RegistersUnder(cat, host, ts[i], k)
  {
    var ts := EligibleTables(cat.classes);
    RegisteredInKeys(cat, host, ts, k);
    assert Registered(cat, host) == RegisteredIn(cat, host, ts);
    assert k in Registered(cat, host) <==> exists i :: 0 <= i < |ts| && RegistersUnder(cat, host, ts[i], k);
    assert ts == EligibleTables(cat.classes);
  }

  /** Each field of the registration over `ts` holds a table of `ts` that registers under that name. */
  lemma {:induction false} RegisteredInValues(cat: Catalog, host: Host, ts: seq<Table>, k: string)
    requires k in RegisteredIn(cat, host, ts)
    ensures exists i :: 0 <= i < |ts| && RegistersUnder(cat, host, ts[i], k)
                        && RegisteredIn(cat, host, ts)[k] == MutationField(ts[i], AttrMap(cat, host, ts[i]))
  {
    var front := ts[..|ts| - 1];
    var last := ts[|ts| - 1];
    assert ts == front + [last];
    RegisteredInSnoc(cat, host, front, last);
    if RegistersUnder(cat, host, last, k) {
      assert ts[|ts| - 1] == last;
    } else {
      RegisteredInValues(cat, host, front, k);
      var i :| 0 <= i < |front| && RegistersUnder(cat, host, front[i], k)
               && RegisteredIn(cat, host, front)[k] == MutationField(front[i], AttrMap(cat, host, front[i]));
      assert front[i] == ts[i];
    }
  }

  /**
   * Every registered field holds an eligible table of the catalog that passes
   * every check, registered under its own field name with its own attribute map.
   */
  lemma RegisteredTables(cat: Catalog, host: Host, k: string)
    requires k in Registered(cat, host)
    ensures var f := Registered(cat, host)[k];
      f.table in cat.classes && Eligible(f.table) && Registers(cat, host, f.table)
      && PrimaryKey(cat, f.table).Some? && FieldName(host, f.table) == k
      && f.attrByFieldName == AttrMap(cat, host, f.table)
  {
    var ts := EligibleTables(cat.classes);
    RegisteredInValues(cat, host, ts, k);
    assert Registered(cat, host) == RegisteredIn(cat, host, ts);
    var i :| 0 <= i < |ts| && RegistersUnder(cat, host, ts[i], k)
             && RegisteredIn(cat, host, ts)[k] == MutationField(ts[i], AttrMap(cat, host, ts[i]));
    EligibleTableAt(cat.classes, i);
  }

  /** When two registering tables share a field name, the later one's mutation is the one kept. */
  lemma RegisteredLastWins(cat: Catalog, host: Host, i: nat)
    requires var ts := EligibleTables(cat.classes);
      i < |ts| && Registers(cat, host, ts[i])
      && forall j :: i < j < |ts| && Registers(cat, host, ts[j]) ==> FieldName(host, ts[j]) != FieldName(host, ts[i])
    ensures var ts := EligibleTables(cat.classes);
      var m := Registered(cat, host);
      FieldName(host, ts[i]) in m && m[FieldName(host, ts[i])] == MutationField(ts[i], AttrMap(cat, host, ts[i]))
  {
    IndexIfLastWins(EligibleTables(cat.classes), (t: Table) => Registers(cat, host, t), (t: Table) => FieldName(host, t),
                    (t: Table) => MutationField(t, AttrMap(cat, host, t)), i);
  }

  /** One more attribute extends the table's attributes when it belongs to the table. */
  lemma TableAttributesSnoc(attrs: seq<Attribute>, a: Attribute, tableId: int)
    ensures TableAttributes(attrs + [a], tableId) == TableAttributes(attrs, tableId) + (if a.classId == tableId then [a] else [])
  {
    assert (attrs + [a])[..|attrs|] == attrs;
  }

  /** One more attribute overwrites its field name in the index. */
  lemma FieldIndexSnoc(attrs: seq<Attribute>, a: Attribute, column: Attribute -> string)
    ensures FieldIndex(attrs + [a], column) == FieldIndex(attrs, column)[column(a) := a]
  {
    assert (attrs + [a])[..|attrs|] == attrs;
  }

  /**
   * In catalog terms: an attribute of the table that no later attribute of the
   * same table shares a field name with is the one `attrByFieldName` keeps.
   */
  lemma {:induction false} FilteredIndexLastWins(attrs: seq<Attribute>, tableId: int, column: Attribute -> string, i: nat)
    requires i < |attrs| && attrs[i].classId == tableId
    requires forall j :: i < j < |attrs| && attrs[j].classId == tableId ==> column(attrs[j]) != column(attrs[i])
    ensures var m := FieldIndex(TableAttributes(attrs, tableId), column);
      column(attrs[i]) in m && m[column(attrs[i])] == attrs[i]
  {
    var front := attrs[..|attrs| - 1];
    var last := attrs[|attrs| - 1];
    assert attrs == front + [last];
    TableAttributesSnoc(front, last, tableId);
    if i == |attrs| - 1 {
      FieldIndexSnoc(TableAttributes(front, tableId), last, column);
    } else {
      assert front[i] == attrs[i];
      assert forall j :: i < j < |front| ==> front[j] == attrs[j];
      FilteredIndexLastWins(front, tableId, column, i);
      if last.classId == tableId {
        assert column(last) != column(attrs[i]);
        assert TableAttributes(attrs, tableId) == TableAttributes(front, tableId) + [last];
        FieldIndexSnoc(TableAttributes(front, tableId), last, column);
        assert FieldIndex(TableAttributes(attrs, tableId), column)
            == FieldIndex(TableAttributes(front, tableId), column)[column(last) := last];
      } else {
        assert TableAttributes(attrs, tableId) == TableAttributes(front, tableId);
      }
    }
  }

  /** `attrByFieldName` keeps, for each field name, the table's last catalog attribute carrying it. */
  lemma AttrMapLastWins(cat: Catalog, host: Host, t: Table, i: nat)
    requires i < |cat.attributes| && cat.attributes[i].classId == t.id
    requires forall j :: i < j < |cat.attributes| && cat.attributes[j].classId == t.id ==>
      host.column(cat.attributes[j]) != host.column(cat.attributes[i])
    ensures var m := AttrMap(cat, host, t);
      host.column(cat.attributes[i]) in m && m[host.column(cat.attributes[i])] == cat.attributes[i]
  {
    FilteredIndexLastWins(cat.attributes, t.id, host.column, i);
  }

  /** One more table adds its mutation field when it passes the checks. */
  lemma RegisteredInSnoc(cat: Catalog, host: Host, ts: seq<Table>, t: Table)
    ensures RegisteredIn(cat, host, ts + [t])
         == if Registers(cat, host, t) then RegisteredIn(cat, host, ts)[FieldName(host, t) := MutationField(t, AttrMap(cat, host, t))]
            else RegisteredIn(cat, host, ts)
  {
    assert (ts + [t])[..|ts|] == ts;
  }

  /** An entry of the registration survives one more table that does not overwrite it. */
  lemma RegisteredInKeeps(cat: Catalog, host: Host, ts: seq<Table>, t: Table, k: string, f: MutationField)
    requires k in RegisteredIn(cat, host, EligibleTables(ts)) && RegisteredIn(cat, host, EligibleTables(ts))[k] == f
    requires Eligible(t) && Registers(cat, host, t) ==> FieldName(host, t) != k
    ensures k in RegisteredIn(cat, host, EligibleTables(ts + [t])) && RegisteredIn(cat, host, EligibleTables(ts + [t]))[k] == f
  {
    assert (ts + [t])[..|ts|] == ts;
    assert EligibleTables(ts + [t]) == EligibleTables(ts) + (if Eligible(t) then [t] else []);
    if Eligible(t) {
      RegisteredInSnoc(cat, host, EligibleTables(ts), t);
    } else {
      assert EligibleTables(ts + [t]) == EligibleTables(ts);
    }
  }

  /** The last table, when eligible and registering, sets its own field. */
  lemma RegisteredInLast(cat: Catalog, host: Host, ts: seq<Table>, t: Table)
    requires Eligible(t) && Registers(cat, host, t)
    ensures var m := RegisteredIn(cat, host, EligibleTables(ts + [t]));
      FieldName(host, t) in m && m[FieldName(host, t)] == MutationField(t, AttrMap(cat, host, t))
  {
    assert (ts + [t])[..|ts|] == ts;
    assert EligibleTables(ts + [t]) == EligibleTables(ts) + [t];
    RegisteredInSnoc(cat, host, EligibleTables(ts), t);
  }

  /**
   * In catalog terms: an eligible, registering table that no later eligible,
   * registering table shares a field name with is the one whose mutation is kept.
   */
  lemma {:induction false} RegisteredInLastWins(cat: Catalog, host: Host, ts: seq<Table>, i: nat)
    requires i < |ts| && Eligible(ts[i]) && Registers(cat, host, ts[i])
    requires forall j :: i < j < |ts| && Eligible(ts[j]) && Registers(cat, host, ts[j]) ==> FieldName(host, ts[j]) != FieldName(host, ts[i])
    ensures var m := RegisteredIn(cat, host, EligibleTables(ts));
      FieldName(host, ts[i]) in m && m[FieldName(host, ts[i])] == MutationField(ts[i], AttrMap(cat, host, ts[i]))
  {
    var front := ts[..|ts| - 1];
    var last := ts[|ts| - 1];
    assert ts == front + [last];
    if i == |ts| - 1 {
      RegisteredInLast(cat, host, front, last);
    } else {
      assert front[i] == ts[i];
      assert forall j :: i < j < |front| ==> front[j] == ts[j];
      RegisteredInLastWins(cat, host, front, i);
      RegisteredInKeeps(cat, host, front, last, FieldName(host, ts[i]), MutationField(ts[i], AttrMap(cat, host, ts[i])));
    }
  }

  /** The registration keeps, for each field name, the last table of the catalog that registers under it. */
  lemma RegisteredCatalogLastWins(cat: Catalog, host: Host, i: nat)
    requires i < |cat.classes| && Eligible(cat.classes[i]) && Registers(cat, host, cat.classes[i])
    requires forall j :: i < j < |cat.classes| && Eligible(cat.classes[j]) && Registers(cat, host, cat.classes[j]) ==>
      FieldName(host, cat.classes[j]) != FieldName(host, cat.classes[i])
    ensures var m := Registered(cat, host);
      FieldName(host, cat.classes[i]) in m && m[FieldName(host, cat.classes[i])] == MutationField(cat.classes[i], AttrMap(cat, host, cat.classes[i]))
  {
    RegisteredInLastWins(cat, host, cat.classes, i);
  }

  /** The inner `reduce` (index.js:193-200). */
  method AttrByFieldName(cat: Catalog, host: Host, t: Table) returns (attrByFieldName: map<string, Attribute>)
    ensures attrByFieldName == AttrMap(cat, host, t)
  {
    attrByFieldName := map[];
    var i := 0;
    while i < |cat.attributes|
      invariant 0 <= i <= |cat.attributes|
      invariant attrByFieldName == FieldIndex(TableAttributes(cat.attributes[..i], t.id), host.column)
    {
      var attr := cat.attributes[i];
      assert cat.attributes[..i + 1] == cat.attributes[..i] + [attr];
      TableAttributesSnoc(cat.attributes[..i], attr, t.id);
      ghost var before := TableAttributes(cat.attributes[..i], t.id);
      if attr.classId == t.id {
        FieldIndexSnoc(before, attr, host.column);
        var fieldName := host.column(attr);
        attrByFieldName := attrByFieldName[fieldName := attr];
        assert attrByFieldName == FieldIndex(TableAttributes(cat.attributes[..i + 1], t.id), host.column);
      } else {
        assert TableAttributes(cat.attributes[..i + 1], t.id) == before;
      }
      i := i + 1;
    }
    assert cat.attributes[..i] == cat.attributes;
  }

  /** The outer `reduce` (index.js:178-227, index.js:305-310): the mutation fields it registers. */
  method CollectMutations(cat: Catalog, host: Host) returns (memo: map<string, MutationField>)
    ensures memo == Registered(cat, host)
  {
    var tables := EligibleTables(cat.classes);
    memo := map[];
    var i := 0;
    while i < |tables|
      invariant 0 <= i <= |tables|
      invariant memo == RegisteredIn(cat, host, tables[..i])
    {
      var table := tables[i];
      assert tables[..i + 1][..i] == tables[..i];
      i := i + 1;
      if !host.hasTableType(table) {
        continue;
      }
      var attrByFieldName := AttrByFieldName(cat, host, table);
      var primaryKeyConstraint := PrimaryKeyConstraint(cat, table);
      if primaryKeyConstraint.None? {
        continue;
      }
      var primaryKey := KeyAttribute(cat, table, primaryKeyConstraint.value);
      if primaryKey.None? {
        continue;
      }
      if !host.tableTypeHasField(table, primaryKey.value.name) {
        continue;
      }
      if !host.hasPatchType(table) {
        continue;
      }
      memo := memo[FieldName(host, table) := MutationField(table, attrByFieldName)];
    }
    assert tables[..i] == tables;
  }
}
