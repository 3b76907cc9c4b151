/** The IR blocks shared by both lowering passes: a closed sum type with one
    constructor per block class the lowering passes look at. */
module IrBlocks {

  /** A vertex location introduced by a MarkLocation block (opaque). */
  type Location = string

  /** A schema type name. */
  type TypeName = string

  /** A filter predicate or an output expression (opaque to both passes). */
  type Expression = string

  datatype Block =
    | QueryRoot(startClass: set<TypeName>)
    | Traverse(direction: string, edgeName: string)
    | Recurse(direction: string, edgeName: string, depth: nat)
    | Backtrack(location: Location)
    | MarkLocation(location: Location)
    | CoerceType(targetClass: set<TypeName>)
    | Filter(predicateExpr: Expression)
    | Fold(foldScopeLocation: Location)
    | Unfold
    | OutputSource
    | EndOptional
    | GlobalOperationsStart
    | ConstructResult(fields: map<string, Expression>)

  /** The class of a block, as `type(block)` gives it in the source. */
  datatype BlockKind =
    | QueryRootKind | TraverseKind | RecurseKind | BacktrackKind | MarkLocationKind
    | CoerceTypeKind | FilterKind | FoldKind | UnfoldKind | OutputSourceKind
    | EndOptionalKind | GlobalOperationsStartKind | ConstructResultKind

  function KindOf(b: Block): BlockKind {
    match b
    case QueryRoot(_) => QueryRootKind
    case Traverse(_, _) => TraverseKind
    case Recurse(_, _, _) => RecurseKind
    case Backtrack(_) => BacktrackKind
    case MarkLocation(_) => MarkLocationKind
    case CoerceType(_) => CoerceTypeKind
    case Filter(_) => FilterKind
    case Fold(_) => FoldKind
    case Unfold => UnfoldKind
    case OutputSource => OutputSourceKind
    case EndOptional => EndOptionalKind
    case GlobalOperationsStart => GlobalOperationsStartKind
    case ConstructResult(_) => ConstructResultKind
  }

  /** The tuple of block classes of a block list. */
  function Kinds(bs: seq<Block>): (ks: seq<BlockKind>)
    ensures |ks| == |bs|
    ensures forall i :: 0 <= i < |bs| ==> ks[i] == KindOf(bs[i])
  {
    seq(|bs|, i requires 0 <= i < |bs| => KindOf(bs[i]))
  }
}
