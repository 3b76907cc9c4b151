/**
 * What the recursive CTE of a `Recurse` node admits, row by row.
 *
 * A small evaluator gives the scalar part of the expression language its
 * SQL meaning (integers, text, comparisons, `CASE`, `LIKE '%..%'` as
 * `contains`), so that the anchor, the step and the step's guard built by
 * `RecursiveQuery` (and by `CorrectedRecursiveQuery`) can be run on one path
 * of the recursion at a time: a path is the sequence of keys it visits, the
 * anchor seeding the first. The joins that connect consecutive keys are not
 * evaluated: a path is any key sequence, taken as connected.
 */
module RecursionWalk {
  import opened Wrappers
  import opened SqlExpr
  import opened RecursiveClause

  datatype Value = IntV(i: int) | TextV(s: string) | BoolV(b: bool)

  /** `needle` occurs in `hay` as a contiguous piece. */
  predicate Occurs(needle: string, hay: string)
    decreases |hay|
  {
    needle <= hay || (|hay| > 0 && Occurs(needle, hay[1..]))
  }

  function DigitChar(d: nat): char
    requires d < 10
  {
    (48 + d) as char
  }

  /** Decimal text of `n`. */
  function Digits(n: nat): string
  {
    if n < 10 then [DigitChar(n)] else Digits(n / 10) + [DigitChar(n % 10)]
  }

  /** `CAST(i AS VARCHAR)`. */
  function IntText(i: int): string
  {
    if i < 0 then "-" + Digits(-i) else Digits(i)
  }

  /** The value of a decimal numeral, `None` for any other text. */
  function Numeral(s: string): Option<nat>
  {
    if |s| == 0 || !('0' <= s[|s| - 1] <= '9') then None
    else
      var d := s[|s| - 1] as int - '0' as int;
      if |s| == 1 then Some(d)
      else match Numeral(s[..|s| - 1])
        case None => None
        case Some(n) => Some(10 * n + d)
  }

  /** The text a key is cast to when it is appended to a path. */
  function KeyText(v: Value): Option<string>
  {
    match v
    case IntV(i) => Some(IntText(i))
    case TextV(s) => Some(s)
    case BoolV(_) => None
  }

  function AsInt(v: Option<Value>): Option<int>
  {
    if v.Some? && v.value.IntV? then Some(v.value.i) else None
  }

  function AsText(v: Option<Value>): Option<string>
  {
    if v.Some? && v.value.TextV? then Some(v.value.s) else None
  }

  /**
   * The value of a scalar expression in one row, `env` mapping each bound
   * column reference to its value; `None` where the expression is not scalar or is
   * ill-typed.
   */
  function Eval(e: Expr, env: map<Expr, Value>): Option<Value>
    decreases e
  {
    match e
    case Column(_, _) => if e in env then Some(env[e]) else None
    case Label(inner, _) => Eval(inner, env)
    case LiteralColumn(text) => if Numeral(text).Some? then Some(IntV(Numeral(text).value)) else None
    case IntLit(v) => Some(IntV(v))
    case StringLit(text) => Some(TextV(text))
    case CastToString(x) =>
      var v := Eval(x, env);
      if v.Some? && KeyText(v.value).Some? then Some(TextV(KeyText(v.value).value)) else None
    case Concat(a, b) =>
      var x, y := AsText(Eval(a, env)), AsText(Eval(b, env));
      if x.Some? && y.Some? then Some(TextV(x.value + y.value)) else None
    case Add(a, b) =>
      var x, y := AsInt(Eval(a, env)), AsInt(Eval(b, env));
      if x.Some? && y.Some? then Some(IntV(x.value + y.value)) else None
    case Lt(a, b) =>
      var x, y := AsInt(Eval(a, env)), AsInt(Eval(b, env));
      if x.Some? && y.Some? then Some(BoolV(x.value < y.value)) else None
    case Eq(a, b) =>
      var x, y := Eval(a, env), Eval(b, env);
      if x.Some? && y.Some? then Some(BoolV(x.value == y.value)) else None
    case Contains(hay, needle) =>
      var h, n := AsText(Eval(hay, env)), AsText(Eval(needle, env));
      if h.Some? && n.Some? then Some(BoolV(Occurs(n.value, h.value))) else None
    case Case(condition, whenTrue, otherwise) =>
      var c := Eval(condition, env);
      if c.Some? && c.value.BoolV? then (if c.value.b then Eval(whenTrue, env) else Eval(otherwise, env))
      else None
    case And(conjuncts) =>
      var all := EvalAll(conjuncts, env);
      if all.Some? then Some(BoolV(all.value)) else None
    case _ => None
  }

  /** Whether every conjunct holds; `None` when one is not a truth value. */
  function EvalAll(conjuncts: seq<Expr>, env: map<Expr, Value>): Option<bool>
    decreases conjuncts
  {
    if conjuncts == [] then Some(true)
    else
      var first, rest := Eval(conjuncts[0], env), EvalAll(conjuncts[1..], env);
      if first.Some? && first.value.BoolV? && rest.Some? then Some(first.value.b && rest.value) else None
  }

  // ----- one evaluation step per constructor the recursive clause uses

  lemma EvalAnd(a: Expr, b: Expr, env: map<Expr, Value>, x: bool, y: bool)
    requires Eval(a, env) == Some(BoolV(x)) && Eval(b, env) == Some(BoolV(y))
    ensures Eval(And([a, b]), env) == Some(BoolV(x && y))
  {
    assert [a, b][1..] == [b] && [b][1..] == [];
    assert EvalAll([b], env) == Some(y);
    assert EvalAll([a, b], env) == Some(x && y);
  }

  lemma EvalConcat(a: Expr, b: Expr, env: map<Expr, Value>, x: string, y: string)
    requires Eval(a, env) == Some(TextV(x)) && Eval(b, env) == Some(TextV(y))
    ensures Eval(Concat(a, b), env) == Some(TextV(x + y))
  {
  }

  lemma EvalLabel(a: Expr, name: Option<string>, env: map<Expr, Value>)
    ensures Eval(Label(a, name), env) == Eval(a, env)
  {
  }

  lemma EvalCast(a: Expr, env: map<Expr, Value>, v: Value)
    requires Eval(a, env) == Some(v) && KeyText(v).Some?
    ensures Eval(CastToString(a), env) == Some(TextV(KeyText(v).value))
  {
  }

  lemma EvalContains(hay: Expr, needle: Expr, env: map<Expr, Value>, h: string, n: string)
    requires Eval(hay, env) == Some(TextV(h)) && Eval(needle, env) == Some(TextV(n))
    ensures Eval(Contains(hay, needle), env) == Some(BoolV(Occurs(n, h)))
  {
  }

  /** `CASE WHEN c THEN 1 ELSE 0 END = 0`: the condition does not hold. */
  lemma EvalNotFlag(c: Expr, env: map<Expr, Value>, b: bool)
    requires Eval(c, env) == Some(BoolV(b))
    ensures Eval(Eq(Case(c, IntLit(1), IntLit(0)), IntLit(0)), env) == Some(BoolV(!b))
  {
    assert Eval(Case(c, IntLit(1), IntLit(0)), env) == Some(IntV(if b then 1 else 0));
  }

  lemma EvalLt(a: Expr, b: Expr, env: map<Expr, Value>, x: int, y: int)
    requires Eval(a, env) == Some(IntV(x)) && Eval(b, env) == Some(IntV(y))
    ensures Eval(Lt(a, b), env) == Some(BoolV(x < y))
  {
  }

  lemma EvalAdd(a: Expr, b: Expr, env: map<Expr, Value>, x: int, y: int)
    requires Eval(a, env) == Some(IntV(x)) && Eval(b, env) == Some(IntV(y))
    ensures Eval(Add(a, b), env) == Some(IntV(x + y))
  {
  }

  /** The two columns of a CTE row the step reads back: depth and path. */
  datatype Row = Row(depth: int, path: string)

  /** The anchor's row: `table`'s base column holds `key`. */
  function AnchorEnv(table: Expr, cols: RecursionColumns, key: Value): map<Expr, Value>
  {
    map[Column(table, Named(cols.baseCol)) := key]
  }

  /** A step's row: the previous level's row of `cte`, and a row of the recursive table whose source is `key`. */
  function StepEnv(cte: Expr, cols: RecursionColumns, prev: Row, key: Value): map<Expr, Value>
  {
    map[Column(cols.recursiveTable, Named(cols.sourceCol)) := key,
        Column(cte, Named(PathColumn)) := TextV(prev.path),
        Column(cte, Named(DepthColumn)) := IntV(prev.depth)]
  }

  /** The row a level of `query` produces from `env`: its depth and path columns. */
  function RowOf(query: Expr, env: map<Expr, Value>): Option<Row>
    requires query.Select? && |query.columns| == 4
  {
    var d, p := AsInt(Eval(query.columns[2], env)), AsText(Eval(query.columns[3], env));
    if d.Some? && p.Some? then Some(Row(d.value, p.value)) else None
  }

  /** The shape of a recursive CTE the walk can read: a combined anchor and guarded step. */
  predicate WalkShape(q: Expr)
  {
    && q.Combine? && q.anchor.Cte? && q.anchor.query.Select? && |q.anchor.query.columns| == 4
    && q.step.Select? && |q.step.columns| == 4 && q.step.where.Some?
  }

  /** The row one step of `q` adds to the level row `prev` when it reaches `key`, if its guard admits it. */
  function Extend(q: Expr, cols: RecursionColumns, prev: Row, key: Value): Option<Row>
    requires WalkShape(q)
  {
    var env := StepEnv(q.anchor, cols, prev, key);
    if Eval(q.step.where.value, env) == Some(BoolV(true)) then RowOf(q.step, env) else None
  }

  /**
   * The row the recursive query `q` (as `RecursiveQuery` builds it) holds for
   * the path visiting `keys`: the anchor's row for the first key, then one step
   * per further key. `None` when the query does not produce that path.
   */
  function WalkRow(q: Expr, table: Expr, cols: RecursionColumns, keys: seq<Value>): Option<Row>
    requires WalkShape(q) && |keys| >= 1
  {
    if |keys| == 1 then RowOf(q.anchor.query, AnchorEnv(table, cols, keys[0]))
    else
      match WalkRow(q, table, cols, keys[..|keys| - 1])
      case None => None
      case Some(prev) => Extend(q, cols, prev, keys[|keys| - 1])
  }

  // ----- paths and the delimited search

  predicate CommaFree(s: string)
  {
    ',' !in s
  }

  /** The path column after visiting keys whose texts are `ts`: each text followed by a comma. */
  function PathOf(ts: seq<string>): string
  {
    if ts == [] then "" else ts[0] + "," + PathOf(ts[1..])
  }

  lemma PathOfOne(t: string)
    ensures PathOf([t]) == t + ","
  {
    assert [t][1..] == [];
    assert PathOf([t]) == t + "," + PathOf([]);
  }

  lemma {:induction false} PathOfAppend(ts: seq<string>, t: string)
    ensures PathOf(ts + [t]) == PathOf(ts) + t + ","
  {
    if ts == [] {
      assert ts + [t] == [t];
    } else {
      assert (ts + [t])[1..] == ts[1..] + [t];
      PathOfAppend(ts[1..], t);
    }
  }

  lemma {:induction false} OccursInLonger(needle: string, prefix: string, hay: string)
    requires Occurs(needle, hay)
    ensures Occurs(needle, prefix + hay)
    decreases |prefix|
  {
    if prefix != [] {
      assert (prefix + hay)[1..] == prefix[1..] + hay;
      OccursInLonger(needle, prefix[1..], hay);
    } else {
      assert prefix + hay == hay;
    }
  }

  /** A needle starting with a comma cannot start inside a comma-free prefix. */
  lemma {:induction false} OccursPastCommaFree(needle: string, prefix: string, hay: string)
    requires |needle| > 0 && needle[0] == ',' && CommaFree(prefix)
    requires Occurs(needle, prefix + hay)
    ensures Occurs(needle, hay)
    decreases |prefix|
  {
    if prefix != [] {
      assert (prefix + hay)[0] == prefix[0];
      assert !(needle <= prefix + hay);
      assert (prefix + hay)[1..] == prefix[1..] + hay;
      OccursPastCommaFree(needle, prefix[1..], hay);
    } else {
      assert prefix + hay == hay;
    }
  }

  /** `,a,` starts `,b,` followed by anything only when the comma-free `a` and `b` are equal. */
  lemma DelimitedPrefix(a: string, b: string, rest: string)
    requires CommaFree(a) && CommaFree(b)
    ensures ("," + a + "," <= "," + b + "," + rest) <==> a == b
  {
    var n, h := "," + a + ",", "," + b + "," + rest;
    if a == b {
      assert h == n + rest;
    } else if |a| < |b| {
      assert b[|a|] in b;
      assert n[|a| + 1] != h[|a| + 1];
    } else if |a| > |b| {
      assert a[|b|] in a;
      assert n[|b| + 1] != h[|b| + 1];
    } else {
      assert n[1..|a| + 1] == a && h[1..|b| + 1] == b;
    }
  }

  /**
   * Searching `,path` for `,key,` finds exactly the visited keys, provided no
   * key text contains a comma.
   */
  lemma {:induction false} DelimitedSearch(key: string, ts: seq<string>)
    requires CommaFree(key) && forall t :: t in ts ==> CommaFree(t)
    ensures Occurs("," + key + ",", "," + PathOf(ts)) <==> key in ts
  {
    var n := "," + key + ",";
    if ts == [] {
      assert "," + PathOf(ts) == ",";
      assert !(n <= ",") && !Occurs(n, "");
    } else {
      var t, rest := ts[0], ts[1..];
      assert t in ts;
      var h := "," + t + "," + PathOf(rest);
      assert "," + PathOf(ts) == h;
      forall x | x in rest ensures CommaFree(x) {
        assert x in ts;
      }
      DelimitedSearch(key, rest);
      DelimitedPrefix(key, t, PathOf(rest));
      assert h[1..] == t + ("," + PathOf(rest));
      if Occurs(n, h) && key != t {
        OccursPastCommaFree(n, t, "," + PathOf(rest));
      }
      if key in rest {
        OccursInLonger(n, t, "," + PathOf(rest));
      }
      assert key in ts <==> key == t || key in rest;
    }
  }

  // ----- the guard, the anchor and the step, evaluated

  /** The texts of `keys`, in order (the empty text for a key that has none). */
  function Texts(keys: seq<Value>): (ts: seq<string>)
    ensures |ts| == |keys|
    ensures forall i :: 0 <= i < |keys| && KeyText(keys[i]).Some? ==> ts[i] == KeyText(keys[i]).value
  {
    if keys == [] then []
    else
      var last := keys[|keys| - 1];
      Texts(keys[..|keys| - 1]) + [if KeyText(last).Some? then KeyText(last).value else ""]
  }

  predicate Distinct(ts: seq<string>)
  {
    forall i, j :: 0 <= i < j < |ts| ==> ts[i] != ts[j]
  }

  /** Keys whose texts can be told apart in a comma-separated path. */
  predicate Delimitable(keys: seq<Value>)
  {
    forall v :: v in keys ==> KeyText(v).Some? && CommaFree(KeyText(v).value)
  }

  /** The three columns a step reads, as `StepEnv` gives them. */
  lemma StepColumns(cte: Expr, cols: RecursionColumns, prev: Row, key: Value)
    requires cte != cols.recursiveTable
    ensures var env := StepEnv(cte, cols, prev, key);
      && Eval(Column(cte, Named(DepthColumn)), env) == Some(IntV(prev.depth))
      && Eval(Column(cte, Named(PathColumn)), env) == Some(TextV(prev.path))
      && Eval(Column(cols.recursiveTable, Named(cols.sourceCol)), env) == Some(key)
  {
    assert DepthColumn != PathColumn;
  }

  /** The key a step reaches, as text. */
  lemma StepKeyText(cte: Expr, cols: RecursionColumns, prev: Row, key: Value)
    requires cte != cols.recursiveTable && KeyText(key).Some?
    ensures Eval(StepKey(cols), StepEnv(cte, cols, prev, key)) == Some(TextV(KeyText(key).value))
  {
    StepColumns(cte, cols, prev, key);
    EvalCast(Column(cols.recursiveTable, Named(cols.sourceCol)), StepEnv(cte, cols, prev, key), key);
  }

  /**
   * The delimited guard `CorrectedRecursiveQuery` uses admits a step exactly
   * when the previous level is below the depth bound and the new key is not
   * on the path so far.
   */
  lemma GuardAdmits(cte: Expr, cols: RecursionColumns, maxDepth: nat, prev: Row, key: Value, visited: seq<string>)
    requires cte != cols.recursiveTable
    requires KeyText(key).Some? && CommaFree(KeyText(key).value)
    requires (forall t :: t in visited ==> CommaFree(t)) && prev.path == PathOf(visited)
    ensures Eval(Guard(cte, cols, maxDepth), StepEnv(cte, cols, prev, key))
         == Some(BoolV(prev.depth < maxDepth && KeyText(key).value !in visited))
  {
    var env := StepEnv(cte, cols, prev, key);
    var k := KeyText(key).value;
    StepColumns(cte, cols, prev, key);
    StepKeyText(cte, cols, prev, key);
    var comma := StringLit(",");
    var hay := Concat(comma, Column(cte, Named(PathColumn)));
    EvalConcat(comma, Column(cte, Named(PathColumn)), env, ",", prev.path);
    var lead := Concat(comma, StepKey(cols));
    EvalConcat(comma, StepKey(cols), env, ",", k);
    EvalConcat(lead, comma, env, "," + k, ",");
    var needle := Concat(lead, comma);
    EvalContains(hay, needle, env, "," + prev.path, "," + k + ",");
    DelimitedSearch(k, visited);
    EvalNotFlag(Contains(hay, needle), env, k in visited);
    EvalLt(Column(cte, Named(DepthColumn)), IntLit(maxDepth), env, prev.depth, maxDepth);
    var conjuncts := Guard(cte, cols, maxDepth).conjuncts;
    EvalAnd(conjuncts[0], conjuncts[1], env, prev.depth < maxDepth, k !in visited);
  }

  /**
   * The guard as the emitter writes it refuses a key that is not on the path:
   * after visiting key 11 the path is `11,`, which contains the text `1`.
   */
  lemma GuardAsWrittenRefusesUnvisited(cte: Expr, cols: RecursionColumns, maxDepth: nat)
    requires cte != cols.recursiveTable && maxDepth > 0
    ensures var env := StepEnv(cte, cols, Row(0, PathOf([IntText(11)])), IntV(1));
      && IntText(1) !in [IntText(11)]
      && Eval(GuardAsWritten(cte, cols, maxDepth), env) == Some(BoolV(false))
      && Eval(Guard(cte, cols, maxDepth), env) == Some(BoolV(true))
  {
    assert IntText(11) == "11" && IntText(1) == "1";
    var prev := Row(0, PathOf(["11"]));
    assert prev.path == "11,";
    var env := StepEnv(cte, cols, prev, IntV(1));
    StepColumns(cte, cols, prev, IntV(1));
    StepKeyText(cte, cols, prev, IntV(1));
    EvalContains(Column(cte, Named(PathColumn)), StepKey(cols), env, "11,", "1");
    assert Occurs("1", "11,");
    EvalNotFlag(Contains(Column(cte, Named(PathColumn)), StepKey(cols)), env, true);
    EvalLt(Column(cte, Named(DepthColumn)), IntLit(maxDepth), env, 0, maxDepth);
    var conjuncts := GuardAsWritten(cte, cols, maxDepth).conjuncts;
    EvalAnd(conjuncts[0], conjuncts[1], env, true, false);
    GuardAdmits(cte, cols, maxDepth, prev, IntV(1), ["11"]);
  }

  /** The anchor's depth column: the literal 0. */
  lemma AnchorDepth(table: Expr, cols: RecursionColumns, parentColumn: Expr, key: Value)
    ensures AsInt(Eval(AnchorQuery(table, cols, parentColumn).columns[2], AnchorEnv(table, cols, key))) == Some(0)
  {
    var env := AnchorEnv(table, cols, key);
    assert Numeral("0") == Some(0);
    assert Eval(LiteralColumn("0"), env) == Some(IntV(0));
    EvalLabel(LiteralColumn("0"), Some(DepthColumn), env);
  }

  /** The anchor's path column: the key's text and a comma. */
  lemma AnchorPath(table: Expr, cols: RecursionColumns, parentColumn: Expr, key: Value)
    requires KeyText(key).Some?
    ensures AsText(Eval(AnchorQuery(table, cols, parentColumn).columns[3], AnchorEnv(table, cols, key)))
         == Some(KeyText(key).value + ",")
  {
    var env := AnchorEnv(table, cols, key);
    var base := Column(table, Named(cols.baseCol));
    assert Eval(base, env) == Some(key);
    EvalCast(base, env, key);
    EvalConcat(CastToString(base), StringLit(","), env, KeyText(key).value, ",");
    EvalLabel(Concat(CastToString(base), StringLit(",")), Some(PathColumn), env);
  }

  /** The anchor's row for a first key: depth 0, path holding just that key. */
  lemma AnchorRow(table: Expr, cols: RecursionColumns, parentColumn: Expr, key: Value)
    requires KeyText(key).Some?
    ensures RowOf(AnchorQuery(table, cols, parentColumn), AnchorEnv(table, cols, key))
         == Some(Row(0, PathOf([KeyText(key).value])))
  {
    AnchorDepth(table, cols, parentColumn, key);
    AnchorPath(table, cols, parentColumn, key);
    PathOfOne(KeyText(key).value);
  }

  /** A step's depth column: one more than the previous level's. */
  lemma StepDepth(cte: Expr, cols: RecursionColumns, guard: Expr, prev: Row, key: Value)
    requires cte != cols.recursiveTable
    ensures AsInt(Eval(StepQuery(cte, cols, guard).columns[2], StepEnv(cte, cols, prev, key)))
         == Some(prev.depth + 1)
  {
    var env := StepEnv(cte, cols, prev, key);
    var depth := Add(Column(cte, Named(DepthColumn)), IntLit(1));
    assert StepQuery(cte, cols, guard).columns[2] == Label(depth, Some(DepthColumn));
    assert Eval(Column(cte, Named(DepthColumn)), env) == Some(IntV(prev.depth));
    EvalAdd(Column(cte, Named(DepthColumn)), IntLit(1), env, prev.depth, 1);
    EvalLabel(depth, Some(DepthColumn), env);
  }

  /** A step's path column: the previous path, the new key's text and a comma. */
  lemma StepPath(cte: Expr, cols: RecursionColumns, guard: Expr, prev: Row, key: Value)
    requires cte != cols.recursiveTable && KeyText(key).Some?
    ensures AsText(Eval(StepQuery(cte, cols, guard).columns[3], StepEnv(cte, cols, prev, key)))
         == Some(prev.path + KeyText(key).value + ",")
  {
    var env := StepEnv(cte, cols, prev, key);
    var k := KeyText(key).value;
    StepColumns(cte, cols, prev, key);
    StepKeyText(cte, cols, prev, key);
    var extended := Concat(Column(cte, Named(PathColumn)), StepKey(cols));
    EvalConcat(Column(cte, Named(PathColumn)), StepKey(cols), env, prev.path, k);
    EvalConcat(extended, StringLit(","), env, prev.path + k, ",");
    EvalLabel(Concat(extended, StringLit(",")), Some(PathColumn), env);
  }

  /** A step's row: one level deeper, the new key appended to the path. */
  lemma StepRow(cte: Expr, cols: RecursionColumns, guard: Expr, prev: Row, key: Value)
    requires cte != cols.recursiveTable && KeyText(key).Some?
    ensures RowOf(StepQuery(cte, cols, guard), StepEnv(cte, cols, prev, key))
         == Some(Row(prev.depth + 1, prev.path + KeyText(key).value + ","))
  {
    StepDepth(cte, cols, guard, prev, key);
    StepPath(cte, cols, guard, prev, key);
  }

  /** A path with one more key is free of repeats iff the shorter one is and the key is new. */
  lemma DistinctSnoc(ts: seq<string>, t: string)
    ensures Distinct(ts + [t]) <==> Distinct(ts) && t !in ts
  {
    var us := ts + [t];
    if Distinct(us) {
      forall i, j | 0 <= i < j < |ts| ensures ts[i] != ts[j] {
        assert us[i] == ts[i] && us[j] == ts[j];
      }
      forall i | 0 <= i < |ts| ensures ts[i] != t {
        assert us[i] == ts[i] && us[|ts|] == t;
      }
    }
  }

  /** Dropping the last key keeps the texts of the others and their delimitability. */
  lemma WalkPrefix(keys: seq<Value>)
    requires |keys| >= 2 && Delimitable(keys)
    ensures var prefix := keys[..|keys| - 1];
      && Delimitable(prefix)
      && KeyText(keys[|keys| - 1]).Some? && CommaFree(KeyText(keys[|keys| - 1]).value)
      && Texts(keys) == Texts(prefix) + [KeyText(keys[|keys| - 1]).value]
      && (forall t :: t in Texts(prefix) ==> CommaFree(t))
  {
    var prefix := keys[..|keys| - 1];
    assert keys[|keys| - 1] in keys;
    forall v | v in prefix ensures KeyText(v).Some? && CommaFree(KeyText(v).value) {
      assert v in keys;
    }
    var ts := Texts(prefix);
    forall t | t in ts ensures CommaFree(t) {
      var i :| 0 <= i < |ts| && ts[i] == t;
      assert prefix[i] in prefix;
    }
  }

  /**
   * One step of the walk: from the row of the path so far, the corrected query
   * reaches the next key exactly when the depth bound allows one more level
   * and the key is not on the path.
   */
  lemma WalkStep(table: Expr, cols: RecursionColumns, parentColumn: Expr, maxDepth: nat,
                 combinator: string, prev: Row, last: Value, ts: seq<string>)
    requires !cols.recursiveTable.Cte?
    requires KeyText(last).Some? && CommaFree(KeyText(last).value)
    requires (forall t :: t in ts ==> CommaFree(t)) && prev.path == PathOf(ts)
    ensures var k := KeyText(last).value;
      Extend(CorrectedRecursiveQuery(table, cols, parentColumn, maxDepth, combinator), cols, prev, last)
        == if prev.depth < maxDepth && k !in ts then Some(Row(prev.depth + 1, prev.path + k + ",")) else None
  {
    var q := CorrectedRecursiveQuery(table, cols, parentColumn, maxDepth, combinator);
    GuardAdmits(q.anchor, cols, maxDepth, prev, last, ts);
    StepRow(q.anchor, cols, q.step.where.value, prev, last);
  }

  /**
   * The recursive query `CorrectedRecursiveQuery` builds produces a path of keys
   * exactly when the path is at most `maxDepth` steps long and visits no key
   * twice; its row then has the path's length as depth and the keys, each
   * followed by a comma, as path.
   */
  lemma {:induction false} RecursiveWalk(table: Expr, cols: RecursionColumns, parentColumn: Expr, maxDepth: nat,
                                         combinator: string, keys: seq<Value>)
    requires !cols.recursiveTable.Cte? && |keys| >= 1 && Delimitable(keys)
    ensures var w := WalkRow(CorrectedRecursiveQuery(table, cols, parentColumn, maxDepth, combinator), table, cols, keys);
      && (w.Some? <==> |keys| - 1 <= maxDepth && Distinct(Texts(keys)))
      && (w.Some? ==> w.value == Row(|keys| - 1, PathOf(Texts(keys))))
  {
    var n := |keys|;
    if n == 1 {
      AnchorRow(table, cols, parentColumn, keys[0]);
      assert keys[0] in keys;
      assert Texts(keys) == [KeyText(keys[0]).value];
    } else {
      var prefix := keys[..n - 1];
      WalkPrefix(keys);
      RecursiveWalk(table, cols, parentColumn, maxDepth, combinator, prefix);
      var ts := Texts(prefix);
      var k := KeyText(keys[n - 1]).value;
      DistinctSnoc(ts, k);
      var w := WalkRow(CorrectedRecursiveQuery(table, cols, parentColumn, maxDepth, combinator), table, cols, prefix);
      if w.Some? {
        WalkStep(table, cols, parentColumn, maxDepth, combinator, w.value, keys[n - 1], ts);
        PathOfAppend(ts, k);
      }
    }
  }

  // ----- the guard as written

  /** A visited key's text occurs in the path, so the substring search finds it. */
  lemma {:induction false} VisitedOccurs(k: string, ts: seq<string>)
    requires k in ts
    ensures Occurs(k, PathOf(ts))
  {
    var rest := ts[1..];
    assert PathOf(ts) == ts[0] + "," + PathOf(rest);
    if k == ts[0] {
      assert PathOf(ts) == k + ("," + PathOf(rest));
    } else {
      assert ts == [ts[0]] + rest;
      assert k in rest;
      VisitedOccurs(k, rest);
      assert PathOf(ts) == (ts[0] + ",") + PathOf(rest);
      OccursInLonger(k, ts[0] + ",", PathOf(rest));
    }
  }

  /**
   * The guard as the emitter writes it admits a step exactly when the previous
   * level is below the depth bound and the new key's text occurs nowhere in
   * the path, searched as plain text.
   */
  lemma GuardAsWrittenAdmits(cte: Expr, cols: RecursionColumns, maxDepth: nat, prev: Row, key: Value)
    requires cte != cols.recursiveTable && KeyText(key).Some?
    ensures Eval(GuardAsWritten(cte, cols, maxDepth), StepEnv(cte, cols, prev, key))
         == Some(BoolV(prev.depth < maxDepth && !Occurs(KeyText(key).value, prev.path)))
  {
    var env := StepEnv(cte, cols, prev, key);
    var k := KeyText(key).value;
    StepColumns(cte, cols, prev, key);
    StepKeyText(cte, cols, prev, key);
    var found := Contains(Column(cte, Named(PathColumn)), StepKey(cols));
    EvalContains(Column(cte, Named(PathColumn)), StepKey(cols), env, prev.path, k);
    EvalNotFlag(found, env, Occurs(k, prev.path));
    EvalLt(Column(cte, Named(DepthColumn)), IntLit(maxDepth), env, prev.depth, maxDepth);
    var conjuncts := GuardAsWritten(cte, cols, maxDepth).conjuncts;
    EvalAnd(conjuncts[0], conjuncts[1], env, prev.depth < maxDepth, !Occurs(k, prev.path));
  }

  /**
   * One step of the walk of the query as the emitter builds it: the next key is
   * reached exactly when the depth bound allows one more level and the key's
   * text does not occur in the path.
   */
  lemma AsWrittenWalkStep(table: Expr, cols: RecursionColumns, parentColumn: Expr, maxDepth: nat,
                          combinator: string, prev: Row, last: Value)
    requires !cols.recursiveTable.Cte? && KeyText(last).Some?
    ensures var k := KeyText(last).value;
      Extend(RecursiveQuery(table, cols, parentColumn, maxDepth, combinator), cols, prev, last)
        == if prev.depth < maxDepth && !Occurs(k, prev.path) then Some(Row(prev.depth + 1, prev.path + k + ",")) else None
  {
    var q := RecursiveQuery(table, cols, parentColumn, maxDepth, combinator);
    GuardAsWrittenAdmits(q.anchor, cols, maxDepth, prev, last);
    StepRow(q.anchor, cols, q.step.where.value, prev, last);
  }

  /** Dropping the last key of keys that all have texts keeps the texts of the others. */
  lemma TextedPrefix(keys: seq<Value>)
    requires |keys| >= 2 && forall v :: v in keys ==> KeyText(v).Some?
    ensures var prefix := keys[..|keys| - 1];
      && (forall v :: v in prefix ==> KeyText(v).Some?)
      && KeyText(keys[|keys| - 1]).Some?
      && Texts(keys) == Texts(prefix) + [KeyText(keys[|keys| - 1]).value]
  {
    assert keys[|keys| - 1] in keys;
    forall v | v in keys[..|keys| - 1] ensures KeyText(v).Some? {
      assert v in keys;
    }
  }

  /**
   * One step of the query as the emitter builds it keeps the row bounded and
   * free of repeats: from the row of a repeat-free path, it reaches only a key
   * not yet visited, one level deeper.
   */
  lemma AsWrittenStepSound(table: Expr, cols: RecursionColumns, parentColumn: Expr, maxDepth: nat,
                           combinator: string, ts: seq<string>, last: Value)
    requires !cols.recursiveTable.Cte? && KeyText(last).Some? && |ts| >= 1 && Distinct(ts)
    ensures var k := KeyText(last).value;
      var e := Extend(RecursiveQuery(table, cols, parentColumn, maxDepth, combinator), cols,
                      Row(|ts| - 1, PathOf(ts)), last);
      e.Some? ==> |ts| <= maxDepth && Distinct(ts + [k]) && e.value == Row(|ts|, PathOf(ts + [k]))
  {
    var k := KeyText(last).value;
    AsWrittenWalkStep(table, cols, parentColumn, maxDepth, combinator, Row(|ts| - 1, PathOf(ts)), last);
    if k in ts {
      VisitedOccurs(k, ts);
    }
    DistinctSnoc(ts, k);
    PathOfAppend(ts, k);
  }

  /**
   * What the query as the emitter builds it produces is still bounded and free
   * of repeated keys: a path it reaches is at most `maxDepth` steps long, visits
   * no key twice, and its row has the path's length as depth and the keys,
   * each followed by a comma, as path.
   */
  lemma {:induction false} AsWrittenWalkSound(table: Expr, cols: RecursionColumns, parentColumn: Expr, maxDepth: nat,
                                              combinator: string, keys: seq<Value>)
    requires !cols.recursiveTable.Cte? && |keys| >= 1
    requires forall v :: v in keys ==> KeyText(v).Some?
    ensures var w := WalkRow(RecursiveQuery(table, cols, parentColumn, maxDepth, combinator), table, cols, keys);
      w.Some? ==> && |keys| - 1 <= maxDepth && Distinct(Texts(keys))
                  && w.value == Row(|keys| - 1, PathOf(Texts(keys)))
  {
    var n := |keys|;
    if n == 1 {
      assert keys[0] in keys;
      AnchorRow(table, cols, parentColumn, keys[0]);
      assert Texts(keys) == [KeyText(keys[0]).value];
    } else {
      var prefix := keys[..n - 1];
      TextedPrefix(keys);
      AsWrittenWalkSound(table, cols, parentColumn, maxDepth, combinator, prefix);
      var w := WalkRow(RecursiveQuery(table, cols, parentColumn, maxDepth, combinator), table, cols, prefix);
      if w.Some? {
        AsWrittenStepSound(table, cols, parentColumn, maxDepth, combinator, Texts(prefix), keys[n - 1]);
      }
    }
  }

  /**
   * The query as the emitter builds it does not reach the acyclic path 11, 1
   * (with room for the second level); the corrected query does.
   */
  lemma AsWrittenWalkRefusesAcyclicPath(table: Expr, cols: RecursionColumns, parentColumn: Expr, maxDepth: nat,
                                        combinator: string)
    requires !cols.recursiveTable.Cte? && maxDepth > 0
    ensures var keys := [IntV(11), IntV(1)];
      && Distinct(Texts(keys))
      && WalkRow(RecursiveQuery(table, cols, parentColumn, maxDepth, combinator), table, cols, keys) == None
      && WalkRow(CorrectedRecursiveQuery(table, cols, parentColumn, maxDepth, combinator), table, cols, keys).Some?
  {
    var keys := [IntV(11), IntV(1)];
    assert IntText(11) == "11" && IntText(1) == "1";
    assert keys[..1] == [IntV(11)];
    var first := Row(0, PathOf(["11"]));
    assert first.path == "11,";
    AnchorRow(table, cols, parentColumn, IntV(11));
    assert Occurs("1", "11,");
    AsWrittenWalkStep(table, cols, parentColumn, maxDepth, combinator, first, IntV(1));
    WalkStep(table, cols, parentColumn, maxDepth, combinator, first, IntV(1), ["11"]);
    assert Texts(keys) == Texts(keys[..1]) + ["1"];
  }
}
