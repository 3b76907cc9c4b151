/**
 * The query tree the SQL emitter walks: one node per location, built by an
 * external tree builder. Emission mutates the nodes in place.
 */
module SqlTree {
  import opened Wrappers
  import opened IrBlocks
  import opened SqlExpr

  /**
   * A key of a node's `recursion_to_column` map: the source keys it both by
   * recursive child nodes and by the recursive query a node builds for itself.
   */
  datatype RecursionKey = NodeKey(node: SqlNode) | QueryKey(query: Expr)

  /** A snapshot of every field emission changes. */
  datatype NodeState = NodeState(
    table: Option<Expr>,
    fromClause: Option<Expr>,
    selections: seq<SqlBlock>,
    predicates: seq<SqlBlock>,
    recursions: seq<SqlNode>,
    linkColumns: seq<Expr>,
    recursionToColumn: map<RecursionKey, Expr>)

  class SqlNode {
    /** The IR block that introduced the node's location (a `Recurse` for a recursive node). */
    const block: Block
    const relation: string
    const location: Location
    const inOptional: bool
    const parentNode: Option<SqlNode>
    const childrenNodes: seq<SqlNode>

    var recursions: seq<SqlNode>
    var selections: seq<SqlBlock>
    var predicates: seq<SqlBlock>
    var linkColumns: seq<Expr>
    var recursionToColumn: map<RecursionKey, Expr>
    var table: Option<Expr>
    var fromClause: Option<Expr>

    /** The recursion children the tree builder gave this node. */
    ghost const ownRecursions: seq<SqlNode>
    /** This node and its ordinary descendants: what collapsing it touches. */
    ghost const Body: set<SqlNode>
    /** Every node of the subtree, recursion subtrees included. */
    ghost const Repr: set<SqlNode>

    function State(): NodeState
      reads this
    {
      NodeState(table, fromClause, selections, predicates, recursions, linkColumns, recursionToColumn)
    }

    /**
     * The node exclusively owns its children and its recursion children: their
     * subtrees are pairwise disjoint, and no recursion subtree meets the body.
     * Only constant fields are involved, so emission cannot break it.
     */
    ghost predicate Valid()
      decreases Repr
    {
      && this in Body && Body <= Repr
      && (forall c {:trigger c in childrenNodes} :: c in childrenNodes ==>
            c.Body <= Body && c.Repr <= Repr && this !in c.Repr)
      && (forall r {:trigger r in ownRecursions} :: r in ownRecursions ==>
            r.Repr <= Repr && this !in r.Repr && r.Repr !! Body)
      && Body == {this} + BodiesOf(childrenNodes)
      && Disjoint(childrenNodes) && Disjoint(ownRecursions)
      && (forall c, r {:trigger c in childrenNodes, r in ownRecursions} ::
            c in childrenNodes && r in ownRecursions ==> c.Repr !! r.Repr)
      && (forall c :: c in childrenNodes ==> c.Valid())
      && (forall r :: r in ownRecursions ==> r.Valid())
    }

    /** Before emission every node still holds the recursion children it was built with. */
    ghost predicate Pristine()
      reads Repr
    {
      forall m :: m in Repr ==> m.recursions == m.ownRecursions
    }

    /** `add_recursive_link_column`: record `column` as the link for `key`. */
    method AddRecursiveLinkColumn(key: RecursionKey, column: Expr)
      modifies this
      ensures State() == old(State()).(
        linkColumns := old(linkColumns) + [column],
        recursionToColumn := old(recursionToColumn)[key := column])
    {
      linkColumns := linkColumns + [column];
      recursionToColumn := recursionToColumn[key := column];
    }
  }

  /** The bodies of `nodes`, together. */
  ghost function BodiesOf(nodes: seq<SqlNode>): set<SqlNode>
  {
    set c, m | c in nodes && m in c.Body :: m
  }

  /** The subtrees of `nodes`, together. */
  ghost function ReprsOf(nodes: seq<SqlNode>): set<SqlNode>
  {
    set c, m | c in nodes && m in c.Repr :: m
  }

  ghost predicate Disjoint(nodes: seq<SqlNode>)
  {
    forall i, j :: 0 <= i < j < |nodes| ==> nodes[i].Repr !! nodes[j].Repr
  }
}
