/**
 * The recursive common table expression built for a node reached by a
 * bounded-depth `Recurse` edge: which columns it walks, the anchor query that
 * seeds it from the node's table, and the step query that extends it.
 */
module RecursiveClause {
  import opened Wrappers
  import opened IrBlocks
  import opened SqlExpr

  const DepthColumn: string := "__depth_internal_name"
  const PathColumn: string := "path"
  const LinkColumn: string := "link"

  /** The columns one recursion walks and the table the step reads. */
  datatype RecursionColumns = RecursionColumns(
    sourceCol: string, sinkCol: string, baseCol: string, recursiveTable: Expr)

  /**
   * Column choice for a recursive edge. A `BasicEdge` walks its own table from
   * source to sink; a `MultiEdge` walks its junction table, from the final
   * hop's source to the junction hop's sink. Direction `"in"` swaps source and
   * sink. Any other edge shape is refused.
   */
  function ChooseColumns(md: Metadata, location: Location, relation: string, direction: string)
    : (r: Result<RecursionColumns, EmitError>)
    ensures r.Err? <==> md.getEdge(location, relation).OtherEdge?
    ensures r.Err? ==> r.error == UnsupportedEdgeShape(location, relation)
  {
    match md.getEdge(location, relation)
    case BasicEdge(source, sink, _) =>
      var (s, k) := if direction == "in" then (sink, source) else (source, sink);
      Ok(RecursionColumns(s, k, source, Alias(md.getTable(relation))))
    case MultiEdge(junction, final) =>
      var (s, k) := if direction == "in" then (junction.sinkCol, final.sourceCol)
                    else (final.sourceCol, junction.sinkCol);
      Ok(RecursionColumns(s, k, junction.sourceCol, Alias(md.getTableByName(junction.tableName))))
    case OtherEdge(_) =>
      Err(UnsupportedEdgeShape(location, relation))
  }

  /**
   * The anchor: every distinct base key of `table` that some parent row links
   * to, at depth 0, with a path holding just that key.
   */
  function AnchorQuery(table: Expr, cols: RecursionColumns, parentColumn: Expr): Expr
  {
    var baseColumn := Column(table, Named(cols.baseCol));
    var parents := Alias(Select([Label(parentColumn, Some(LinkColumn))], true, None, None));
    Select(
      [ Label(baseColumn, Some(cols.sourceCol)),
        Label(baseColumn, Some(cols.sinkCol)),
        Label(LiteralColumn("0"), Some(DepthColumn)),
        Label(Concat(CastToString(baseColumn), StringLit(",")), Some(PathColumn)) ],
      true,
      Some(Join(InnerJoin, table, parents, Eq(baseColumn, Column(parents, Named(LinkColumn))))),
      None)
  }

  /** The key a step reaches, as text: the recursive table's source column, cast. */
  function StepKey(cols: RecursionColumns): Expr
  {
    CastToString(Column(cols.recursiveTable, Named(cols.sourceCol)))
  }

  /**
   * The step's guard as written: the previous depth is below the bound and the
   * path, searched as text, does not contain the new key.
   */
  function GuardAsWritten(cte: Expr, cols: RecursionColumns, maxDepth: nat): Expr
  {
    And([ Lt(Column(cte, Named(DepthColumn)), IntLit(maxDepth)),
          Eq(Case(Contains(Column(cte, Named(PathColumn)), StepKey(cols)), IntLit(1), IntLit(0)),
             IntLit(0)) ])
  }

  /**
   * The step: join the recursive table to the previous level on
   * sink = previous source, add one to the depth and append the key to the path.
   */
  function StepQuery(cte: Expr, cols: RecursionColumns, guard: Expr): Expr
  {
    var rt := cols.recursiveTable;
    Select(
      [ Column(rt, Named(cols.sourceCol)),
        Column(cte, Named(cols.sinkCol)),
        Label(Add(Column(cte, Named(DepthColumn)), IntLit(1)), Some(DepthColumn)),
        Label(Concat(Concat(Column(cte, Named(PathColumn)), StepKey(cols)), StringLit(",")),
              Some(PathColumn)) ],
      false,
      Some(Join(InnerJoin, rt, cte, Eq(Column(rt, Named(cols.sinkCol)), Column(cte, Named(cols.sourceCol))))),
      Some(guard))
  }

  /**
   * The guard with the path searched for the key between delimiters: the path
   * is prefixed with a comma and the key is looked for as `,key,`, so that one
   * key is never mistaken for a part of another.
   */
  function Guard(cte: Expr, cols: RecursionColumns, maxDepth: nat): Expr
  {
    And([ Lt(Column(cte, Named(DepthColumn)), IntLit(maxDepth)),
          Eq(Case(Contains(Concat(StringLit(","), Column(cte, Named(PathColumn))),
                           Concat(Concat(StringLit(","), StepKey(cols)), StringLit(","))),
                  IntLit(1), IntLit(0)),
             IntLit(0)) ])
  }

  /**
   * The recursive CTE as the emitter builds it: the anchor combined by
   * `combinator` with the step guarded by `GuardAsWritten`.
   */
  function RecursiveQuery(table: Expr, cols: RecursionColumns, parentColumn: Expr, maxDepth: nat,
                          combinator: string): Expr
  {
    var cte := Cte(AnchorQuery(table, cols, parentColumn), true);
    Combine(combinator, cte, StepQuery(cte, cols, GuardAsWritten(cte, cols, maxDepth)))
  }

  /** The same CTE with the step guarded by the delimited `Guard` instead. */
  function CorrectedRecursiveQuery(table: Expr, cols: RecursionColumns, parentColumn: Expr, maxDepth: nat,
                                   combinator: string): Expr
  {
    var cte := Cte(AnchorQuery(table, cols, parentColumn), true);
    Combine(combinator, cte, StepQuery(cte, cols, Guard(cte, cols, maxDepth)))
  }
}
