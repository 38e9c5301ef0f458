/**
 * A reference meaning for the one kind of UPDATE statement the plugin
 * builds: `update T a set c = s.c::type, … from (values (…), …) as s(id, …)
 * where a.key = s.id::keytype returning *`. A stored row maps column names to
 * values of an abstract domain `V`; `cast(p, t)` is the value the literal `p`
 * has once cast to type `t`. With several matching VALUES rows PostgreSQL
 * uses one of them unpredictably; this semantics uses the first.
 */
module UpdateSemantics {
  import opened Wrappers
  import opened Sql

  /** SQL name resolution in the alias column list: the first column with that name. */
  function ColumnIndex(cols: seq<string>, name: string): (r: Option<nat>)
    ensures r.None? <==> name !in cols
    ensures r.Some? ==> r.value < |cols| && cols[r.value] == name && forall j :: 0 <= j < r.value ==> cols[j] != name
  {
    if cols == [] then None
    else if cols[0] == name then Some(0)
    else
      var r := ColumnIndex(cols[1..], name);
      assert forall j :: 0 <= j < |cols| - 1 ==> cols[1..][j] == cols[j + 1];
      if r.None? then None else Some(r.value + 1)
  }

  /** `s.name::t` evaluated on one VALUES row; `None` when the column does not resolve. */
  function SourceValue<V>(u: UpdateStatement, tuple: seq<Param>, name: string, t: Name, cast: (Param, Name) -> V): Option<V> {
    match ColumnIndex(u.sourceColumns, name)
    case None => None
    case Some(j) => if j < |tuple| then Some(cast(tuple[j], t)) else None
  }

  /** The WHERE clause: the row's key equals the VALUES row's cast id. */
  predicate Matches<V(==)>(u: UpdateStatement, row: map<string, V>, tuple: seq<Param>, cast: (Param, Name) -> V) {
    u.keyColumn in row && SourceValue(u, tuple, u.keySource, u.keyCast, cast) == Some(row[u.keyColumn])
  }

  /** The index of the VALUES row a stored row joins with, if any. */
  function FirstMatch<V(==)>(u: UpdateStatement, row: map<string, V>, cast: (Param, Name) -> V, from: nat): (r: Option<nat>)
    requires from <= |u.rows|
    ensures r.None? <==> forall j :: from <= j < |u.rows| ==> !Matches(u, row, u.rows[j], cast)
    ensures r.Some? ==> from <= r.value < |u.rows| && Matches(u, row, u.rows[r.value], cast)
    ensures r.Some? ==> forall j :: from <= j < r.value ==> !Matches(u, row, u.rows[j], cast)
    decreases |u.rows| - from
  {
    if from == |u.rows| then None
    else if Matches(u, row, u.rows[from], cast) then Some(from)
    else FirstMatch(u, row, cast, from + 1)
  }

  /** The SET list applied, left to right, to one stored row joined with one VALUES row. */
  function Assign<V>(u: UpdateStatement, row: map<string, V>, sets: seq<Assignment>, tuple: seq<Param>, cast: (Param, Name) -> V): map<string, V> {
    if sets == [] then row
    else
      var last := sets[|sets| - 1];
      var before := Assign(u, row, sets[..|sets| - 1], tuple, cast);
      match SourceValue(u, tuple, last.sourceColumn, last.castTo, cast)
      case None => before
      case Some(v) => before[last.column := v]
  }

  /** The stored row after the statement. */
  function UpdatedRow<V(==)>(u: UpdateStatement, row: map<string, V>, cast: (Param, Name) -> V): map<string, V> {
    match FirstMatch(u, row, cast, 0)
    case None => row
    case Some(j) => Assign(u, row, u.assignments, u.rows[j], cast)
  }

  /**
   * The table after the statement, row by row: a row that joins no VALUES row
   * is untouched, one that joins gets the SET list applied with the first
   * VALUES row it joins.
   */
  function Execute<V(==)>(u: UpdateStatement, table: seq<map<string, V>>, cast: (Param, Name) -> V): (after: seq<map<string, V>>)
    ensures |after| == |table|
    ensures forall r :: 0 <= r < |table| && FirstMatch(u, table[r], cast, 0).None? ==> after[r] == table[r]
    ensures forall r :: 0 <= r < |table| && FirstMatch(u, table[r], cast, 0).Some? ==>
      after[r] == Assign(u, table[r], u.assignments, u.rows[FirstMatch(u, table[r], cast, 0).value], cast)
  {
    seq(|table|, r requires 0 <= r < |table| => UpdatedRow(u, table[r], cast))
  }

  /** `returning *`: the updated rows, in table order. */
  function Returning<V(==)>(u: UpdateStatement, table: seq<map<string, V>>, cast: (Param, Name) -> V): (rs: seq<map<string, V>>)
    ensures |rs| <= |table|
  {
    if table == [] then []
    else
      var rest := Returning(u, table[..|table| - 1], cast);
      var row := table[|table| - 1];
      if FirstMatch(u, row, cast, 0).Some? then rest + [UpdatedRow(u, row, cast)] else rest
  }

  /** `returning *` yields the new value of every row that joined, and nothing else. */
  lemma {:induction false} ReturningRows<V>(u: UpdateStatement, table: seq<map<string, V>>, cast: (Param, Name) -> V)
    ensures var rs := Returning(u, table, cast);
      (forall j :: 0 <= j < |table| && FirstMatch(u, table[j], cast, 0).Some? ==> UpdatedRow(u, table[j], cast) in rs)
      && forall x :: x in rs ==>
           exists j :: 0 <= j < |table| && FirstMatch(u, table[j], cast, 0).Some? && x == UpdatedRow(u, table[j], cast)
  {
    if table != [] {
      var front := table[..|table| - 1];
      var last := |table| - 1;
      ReturningRows(u, front, cast);
      var rest := Returning(u, front, cast);
      var rs := Returning(u, table, cast);
      assert forall j :: 0 <= j < |front| ==> front[j] == table[j];
      forall x | x in rs
        ensures exists j :: 0 <= j < |table| && FirstMatch(u, table[j], cast, 0).Some? && x == UpdatedRow(u, table[j], cast)
      {
        if x !in rest {
          assert FirstMatch(u, table[last], cast, 0).Some? && x == UpdatedRow(u, table[last], cast);
        } else {
          var j :| 0 <= j < |front| && FirstMatch(u, front[j], cast, 0).Some? && x == UpdatedRow(u, front[j], cast);
          assert front[j] == table[j];
        }
      }
    }
  }

  /** In a column list whose names are all different, each name resolves to its own position. */
  lemma ColumnIndexDistinct(cols: seq<string>, k: nat)
    requires k < |cols|
    requires forall i, j :: 0 <= i < j < |cols| ==> cols[i] != cols[j]
    ensures ColumnIndex(cols, cols[k]) == Some(k)
  {
  }

  /** The SET list writes each assigned column with its source value, later assignments not touching it. */
  lemma {:induction false} AssignWrites<V>(u: UpdateStatement, row: map<string, V>, sets: seq<Assignment>, tuple: seq<Param>, cast: (Param, Name) -> V, k: nat)
    requires k < |sets|
    requires SourceValue(u, tuple, sets[k].sourceColumn, sets[k].castTo, cast).Some?
    requires forall l :: k < l < |sets| ==> sets[l].column != sets[k].column
    ensures var m := Assign(u, row, sets, tuple, cast);
      sets[k].column in m && m[sets[k].column] == SourceValue(u, tuple, sets[k].sourceColumn, sets[k].castTo, cast).value
  {
    var front := sets[..|sets| - 1];
    if k < |sets| - 1 {
      assert front[k] == sets[k];
      assert forall l :: k < l < |front| ==> front[l] == sets[l];
      AssignWrites(u, row, front, tuple, cast, k);
    }
  }

  /** Every assignment of the list finds its source column. */
  predicate Resolves<V>(u: UpdateStatement, sets: seq<Assignment>, tuple: seq<Param>, cast: (Param, Name) -> V) {
    forall k :: 0 <= k < |sets| ==> SourceValue(u, tuple, sets[k].sourceColumn, sets[k].castTo, cast).Some?
  }

  /** After the SET list a row has its old columns and the assigned ones. */
  lemma {:induction false} AssignKeys<V>(u: UpdateStatement, row: map<string, V>, sets: seq<Assignment>, tuple: seq<Param>, cast: (Param, Name) -> V, key: string)
    requires Resolves(u, sets, tuple, cast)
    ensures key in Assign(u, row, sets, tuple, cast) <==> key in row || exists k :: 0 <= k < |sets| && sets[k].column == key
  {
    if sets != [] {
      var front := sets[..|sets| - 1];
      var last := sets[|sets| - 1];
      assert forall k :: 0 <= k < |front| ==> front[k] == sets[k];
      assert Resolves(u, front, tuple, cast);
      AssignKeys(u, row, front, tuple, cast, key);
      var before := Assign(u, row, front, tuple, cast);
      assert SourceValue(u, tuple, last.sourceColumn, last.castTo, cast).Some?;
      var v := SourceValue(u, tuple, last.sourceColumn, last.castTo, cast).value;
      assert Assign(u, row, sets, tuple, cast) == before[last.column := v];
      if key == last.column {
        assert sets[|sets| - 1].column == key;
      } else {
        assert (exists k :: 0 <= k < |sets| && sets[k].column == key) <==> (exists k :: 0 <= k < |front| && front[k].column == key);
      }
    }
  }

  /** A column the SET list does not name keeps its value. */
  lemma {:induction false} AssignKeeps<V>(u: UpdateStatement, row: map<string, V>, sets: seq<Assignment>, tuple: seq<Param>, cast: (Param, Name) -> V, key: string)
    requires key in row
    requires forall k :: 0 <= k < |sets| ==> sets[k].column != key
    ensures key in Assign(u, row, sets, tuple, cast) && Assign(u, row, sets, tuple, cast)[key] == row[key]
  {
    if sets != [] {
      var front := sets[..|sets| - 1];
      assert forall k :: 0 <= k < |front| ==> front[k] == sets[k];
      AssignKeeps(u, row, front, tuple, cast, key);
    }
  }

  /**
   * The statement's columns line up: the alias columns are all different, the
   * first is the key source, the k-th assignment reads alias column k + 1, the
   * assigned columns are all different, and every VALUES row fills every alias
   * column.
   */
  predicate WellFormed(u: UpdateStatement) {
    |u.sourceColumns| == |u.assignments| + 1
    && (forall i, j :: 0 <= i < j < |u.sourceColumns| ==> u.sourceColumns[i] != u.sourceColumns[j])
    && u.keySource == u.sourceColumns[0]
    && (forall k :: 0 <= k < |u.assignments| ==> u.assignments[k].sourceColumn == u.sourceColumns[k + 1])
    && (forall k, l :: 0 <= k < l < |u.assignments| ==> u.assignments[k].column != u.assignments[l].column)
    && (forall i :: 0 <= i < |u.rows| ==> |u.rows[i]| == |u.sourceColumns|)
  }

  /** In a well-formed statement a stored row joins a VALUES row exactly when its key equals the row's cast first value. */
  lemma MatchesKey<V>(u: UpdateStatement, row: map<string, V>, i: nat, cast: (Param, Name) -> V)
    requires WellFormed(u) && i < |u.rows|
    ensures Matches(u, row, u.rows[i], cast) <==> u.keyColumn in row && row[u.keyColumn] == cast(u.rows[i][0], u.keyCast)
  {
    ColumnIndexDistinct(u.sourceColumns, 0);
  }

  /** In a well-formed statement every assignment reads its own VALUES position. */
  lemma AssignmentSources<V>(u: UpdateStatement, tuple: seq<Param>, cast: (Param, Name) -> V)
    requires WellFormed(u) && |tuple| == |u.sourceColumns|
    ensures Resolves(u, u.assignments, tuple, cast)
    ensures forall k :: 0 <= k < |u.assignments| ==>
      SourceValue(u, tuple, u.assignments[k].sourceColumn, u.assignments[k].castTo, cast) == Some(cast(tuple[k + 1], u.assignments[k].castTo))
  {
    forall k | 0 <= k < |u.assignments|
      ensures SourceValue(u, tuple, u.assignments[k].sourceColumn, u.assignments[k].castTo, cast) == Some(cast(tuple[k + 1], u.assignments[k].castTo))
    {
      ColumnIndexDistinct(u.sourceColumns, k + 1);
    }
  }

  /**
   * A stored row joined with VALUES row `i` of a well-formed statement: each
   * assigned column gets that row's cast value, the row gains exactly the
   * assigned columns, and every other column keeps its value.
   */
  lemma AssignEffect<V>(u: UpdateStatement, row: map<string, V>, i: nat, cast: (Param, Name) -> V)
    requires WellFormed(u) && i < |u.rows|
    ensures var after := Assign(u, row, u.assignments, u.rows[i], cast);
      (forall k :: 0 <= k < |u.assignments| ==>
         u.assignments[k].column in after && after[u.assignments[k].column] == cast(u.rows[i][k + 1], u.assignments[k].castTo))
      && (forall key :: key in after <==> key in row || exists k :: 0 <= k < |u.assignments| && u.assignments[k].column == key)
      && (forall key :: key in row && (forall k :: 0 <= k < |u.assignments| ==> u.assignments[k].column != key) ==> after[key] == row[key])
  {
    var tuple := u.rows[i];
    AssignmentSources(u, tuple, cast);
    forall k | 0 <= k < |u.assignments|
      ensures var after := Assign(u, row, u.assignments, tuple, cast);
        u.assignments[k].column in after && after[u.assignments[k].column] == cast(tuple[k + 1], u.assignments[k].castTo)
    {
      AssignWrites(u, row, u.assignments, tuple, cast, k);
    }
    forall key ensures key in Assign(u, row, u.assignments, tuple, cast) <==> key in row || exists k :: 0 <= k < |u.assignments| && u.assignments[k].column == key {
      AssignKeys(u, row, u.assignments, tuple, cast, key);
    }
    forall key | key in row && (forall k :: 0 <= k < |u.assignments| ==> u.assignments[k].column != key)
      ensures Assign(u, row, u.assignments, tuple, cast)[key] == row[key]
    {
      AssignKeeps(u, row, u.assignments, tuple, cast, key);
    }
  }
}
