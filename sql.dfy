/**
 * The SQL statements the plugin sends to PostgreSQL, as a syntax tree. The
 * tree has one constructor per statement template of index.js; how the `sql`
 * tag library renders a tree to text and bound parameters is not modelled.
 */
module Sql {
  import Js

  /** `sql.identifier(a, b, …)` is a (qualified) name; `sql.identifier(Symbol())` a fresh alias. */
  datatype Name = Ident(parts: seq<string>) | Symbol(id: nat)

  /** A PostgreSQL type as introspection describes it. */
  datatype PgType = PgType(namespaceName: string, name: string)

  /** The value `gql2pg(value, type)` produces from a GraphQL input value, left uninterpreted. */
  datatype Param = Converted(value: Js.JsValue, pgType: PgType)

  /** The expression the serialize phase selects, cast to text, from the mutation's rows. */
  datatype Selection =
    | NullCoalesced(alias: Name)                    // (case when a is null then null else a end)
    | TextArray(alias: Name, columns: seq<string>)  // array[a.c1::text, a.c2::text, …]
    | CastRecord(alias: Name, typeName: Name)       // (a.a)::T

  /** One output slot of a record result: `(v.output_value_list)[position]::castTo as column`. */
  datatype Slot = Slot(position: nat, castTo: Name, column: string)

  /** `column = source.sourceColumn::castTo` in the SET list of an update. */
  datatype Assignment = Assignment(column: string, source: Name, sourceColumn: string, castTo: Name)

  /**
   * update target alias set assignments…
   * from (values rows…) as source (sourceColumns…)
   * where alias.keyColumn = source.keySource::keyCast returning *
   */
  datatype UpdateStatement = UpdateStatement(
    target: Name,
    alias: Name,
    assignments: seq<Assignment>,
    rows: seq<seq<Param>>,
    source: Name,
    sourceColumns: seq<string>,
    keyColumn: string,
    keySource: string,
    keyCast: Name)

  datatype Statement =
    | Command(text: string)                                  // a fixed command such as SAVEPOINT
    | Fragment(id: nat)                                      // a query built by code outside the model
    | With(alias: Name, body: Statement, rest: Statement)    // with alias as (body) rest
    | SelectText(selection: Selection, from: Name)           // select (selection)::text from a
    | UnnestComposite(typeName: Name, values: seq<Js.JsValue>)             // select (str::T).* from unnest(values::text[]) str
    | ValuesRecord(slots: seq<Slot>, values: seq<Js.JsValue>, alias: Name) // select slots… from (values (v::text[]), …) as alias(output_value_list)
    | UnnestScalar(typeName: Name, alias: Name, values: seq<Js.JsValue>)   // select str::T as a from unnest(values::text[]) str
    | Update(statement: UpdateStatement)

  const Savepoint: Statement := Command("SAVEPOINT graphql_mutation")
  const Release: Statement := Command("RELEASE SAVEPOINT graphql_mutation")
  const Rollback: Statement := Command("ROLLBACK TO SAVEPOINT graphql_mutation")
}
