/**
 * Abstract relational expressions for the SQL tree emitter.
 *
 * The emitter only composes expressions with a query-builder library; it never
 * looks inside them. Each builder call the emitter makes (`alias()`, `.c[...]`,
 * `label`, `select`, `join`, `outerjoin`, `cte`, `cast`, `concat`, `case`,
 * `contains`, the set combinator) becomes one constructor here, so that the
 * shape of what is built can be stated and proved without SQL semantics.
 */
module SqlExpr {
  import opened Wrappers
  import opened IrBlocks

  datatype JoinKind = InnerJoin | OuterJoin

  /** The key under which a column is found in a selectable's column collection. */
  datatype ColumnName =
    | Named(name: string)
      /** `label(None)` and unnamed expressions get a name chosen by the builder library. */
    | AnonymousName(of: Expr)

  datatype Expr =
    | Table(tableName: string)                 // a relation handed out by the metadata provider
    | Alias(aliased: Expr)                     // `.alias()`
    | Column(source: Expr, column: ColumnName) // `selectable.c[name]`
    | Label(labelled: Expr, labelName: Option<string>)
    | LiteralColumn(text: string)
    | IntLit(value: int)
    | StringLit(text: string)
    | CastToString(castOperand: Expr)
    | Concat(left: Expr, right: Expr)
    | Add(left: Expr, right: Expr)
    | Eq(left: Expr, right: Expr)
    | Lt(left: Expr, right: Expr)
    | And(conjuncts: seq<Expr>)
    | Contains(haystack: Expr, needle: Expr)
    | Case(condition: Expr, whenTrue: Expr, otherwise: Expr)
    | Select(columns: seq<Expr>, distinct: bool, from: Option<Expr>, where: Option<Expr>)
    | Join(kind: JoinKind, left: Expr, right: Expr, on: Expr)
    | Cte(query: Expr, recursive: bool)
    | Combine(combinator: string, anchor: Expr, step: Expr)

  /** The name a column expression is known by once it is selected (`expr.name`). */
  function NameOf(e: Expr): (n: ColumnName)
    ensures e.Column? ==> n == e.column
    ensures e.Label? && e.labelName.Some? ==> n == Named(e.labelName.value)
    ensures !e.Column? && !(e.Label? && e.labelName.Some?) ==> n.AnonymousName?
  {
    match e
    case Column(_, c) => c
    case Label(inner, l) => if l.Some? then Named(l.value) else AnonymousName(e)
    case _ => AnonymousName(e)
  }

  /**
   * The joins stacked on `base` by successive `left.join(right, on)` calls,
   * oldest first; `None` when `e` is not built on `base` that way.
   */
  function JoinsOnto(e: Expr, base: Expr): Option<seq<(JoinKind, Expr, Expr)>>
  {
    if e == base then Some([])
    else if e.Join? then
      match JoinsOnto(e.left, base)
      case Some(js) => Some(js + [(e.kind, e.right, e.on)])
      case None => None
    else None
  }

  /** A block of the query tree that selects or filters: the emitter only sets its table. */
  datatype SqlBlock = SqlBlock(content: Expression, table: Option<Expr>)

  /** Every block pointed at `t`, nothing else changed (the effect of `_update_table_for_blocks`). */
  function WithTable(blocks: seq<SqlBlock>, t: Expr): (r: seq<SqlBlock>)
    ensures |r| == |blocks|
    ensures forall i :: 0 <= i < |r| ==> r[i] == blocks[i].(table := Some(t))
  {
    if blocks == [] then []
    else WithTable(blocks[..|blocks| - 1], t) + [blocks[|blocks| - 1].(table := Some(t))]
  }

  /** One hop of an edge as the metadata provider describes it. */
  datatype Hop = Hop(sourceCol: string, sinkCol: string, tableName: string)

  /** The metadata provider's description of an edge between two relations. */
  datatype Edge =
    | BasicEdge(sourceCol: string, sinkCol: string, tableName: string)
    | MultiEdge(junctionEdge: Hop, finalEdge: Hop)
      /** Any other edge shape the provider might return. */
    | OtherEdge(description: string)

  /** A join partner and its join condition, as returned for a child node. */
  datatype OnClause = OnClause(table: Expr, onclause: Expr)

  /**
   * The metadata provider and the database backend it names, as pure functions.
   * The provider is handed a node; here it is keyed by the node's location.
   */
  datatype Metadata = Metadata(
    getTable: string -> Expr,
    getTableByName: string -> Expr,
    getEdge: (Location, string) -> Edge,
    onClausesFor: Location -> seq<OnClause>,
    columnForBlock: SqlBlock -> Expr,
    predicateCondition: (Location, SqlBlock) -> Expr,
    rename: SqlBlock -> SqlBlock,
    recursionCombinator: string)

  /** Set operations a recursive CTE of the builder library provides. */
  const CteCombinators: set<string> := {"union", "union_all"}

  /** Every way emission can abort. */
  datatype EmitError =
      /** An edge that is neither a `BasicEdge` nor a `MultiEdge`. */
    | UnsupportedEdgeShape(location: Location, relation: string)
      /** The backend names a combinator a recursive CTE does not have. */
    | UnsupportedRecursionCombinator(combinator: string)
      /** A recursion without a recorded link column (a missing-key lookup). */
    | MissingRecursionLink(location: Location)
      /** A recursive node that produced no out column, or a root without an in column. */
    | MissingLinkColumn(location: Location)
}
