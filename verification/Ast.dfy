// Expressions over integer literals, names, grouping and the four operators, as trees and as the
// arena of nodes that the analyser overwrites in place (source/haste.h, source/ast.c).
module Ast {
  import opened Arith
  import opened Wrappers

  /** struct haste_value, of the kinds these expressions can have: VAL_ZERO is the value of the
      literal 0 and has no integer type, every other number is an untyped_int scalar. A name
      that nothing defines is Uninit, and a constant defined by such a name is Runtime. */
  datatype Value = Bad | Uninit | Runtime | Zero | Scalar(n: int64) {
    /** is_comptime_known. */
    predicate IsNumber() { Zero? || Scalar? }

    function AsInt(): int64
      requires IsNumber()
    {
      if Zero? then 0 else n
    }
  }

  datatype Expr = Lit(n: int64) | Name(x: string) | Group(e: Expr) | Bin(op: Op, l: Expr, r: Expr)

  function Names(e: Expr): set<string> {
    match e
    case Lit(_) => {}
    case Name(x) => {x}
    case Group(c) => Names(c)
    case Bin(_, l, r) => Names(l) + Names(r)
  }

  /** A node of the arena; nodes point to each other by position. */
  datatype Node =
    | ValueNode(value: Value)
    | IntegerLit(n: int64, analyzed: bool)
    | Ident(name: string, analyzed: bool)
    | Grouping(child: nat, analyzed: bool)
    | Binary(op: Op, lhs: nat, rhs: nat, analyzed: bool)
    | VarDecl(name: string, init: nat, analyzed: bool)

  predicate Pending(node: Node) {
    !node.ValueNode? && !node.analyzed
  }

  /** The node with its `analyzed` mark set. */
  function Analysed(node: Node): Node {
    match node
    case ValueNode(_) => node
    case IntegerLit(n, _) => IntegerLit(n, true)
    case Ident(name, _) => Ident(name, true)
    case Grouping(child, _) => Grouping(child, true)
    case Binary(op, lhs, rhs, _) => Binary(op, lhs, rhs, true)
    case VarDecl(name, init, _) => VarDecl(name, init, true)
  }

  /** The nodes from lo to id are the tree e, root last, as the parser lays it out (a node is
      allocated after its children, and an operand right before what follows it), and none of
      them below the root has been analysed; `pending` says whether the root has. */
  ghost predicate Holds(nodes: seq<Node>, lo: nat, id: nat, e: Expr, pending: bool)
    decreases e
  {
    lo <= id < |nodes| &&
    match e
    case Lit(n) => lo == id && nodes[id] == IntegerLit(n, !pending)
    case Name(x) => lo == id && nodes[id] == Ident(x, !pending)
    case Group(c) =>
      lo < id && nodes[id] == Grouping(id - 1, !pending) && Holds(nodes, lo, id - 1, c, true)
    case Bin(op, l, r) =>
      && lo < id && nodes[id].Binary? && nodes[id] == Binary(op, nodes[id].lhs, id - 1, !pending)
      && lo <= nodes[id].lhs < id - 1
      && Holds(nodes, lo, nodes[id].lhs, l, true) && Holds(nodes, nodes[id].lhs + 1, id - 1, r, true)
  }

  /** A tree depends on its own nodes only. */
  lemma {:induction false} HoldsFrame(nodes: seq<Node>, nodes': seq<Node>, lo: nat, id: nat, e: Expr, pending: bool)
    requires Holds(nodes, lo, id, e, pending) && |nodes'| == |nodes|
    requires forall i :: lo <= i <= id ==> nodes'[i] == nodes[i]
    ensures Holds(nodes', lo, id, e, pending)
    decreases e
  {
    match e
    case Lit(_) =>
    case Name(_) =>
    case Group(c) => HoldsFrame(nodes, nodes', lo, id - 1, c, true);
    case Bin(_, l, r) =>
      HoldsFrame(nodes, nodes', lo, nodes[id].lhs, l, true);
      HoldsFrame(nodes, nodes', nodes[id].lhs + 1, id - 1, r, true);
  }

  /** How many nodes are still to be analysed. */
  function PendingCount(nodes: seq<Node>): nat {
    if nodes == [] then 0
    else PendingCount(nodes[..|nodes| - 1]) + if Pending(nodes[|nodes| - 1]) then 1 else 0
  }

  lemma {:induction false} PendingUpdate(nodes: seq<Node>, i: nat, node: Node)
    requires i < |nodes|
    ensures PendingCount(nodes[i := node]) ==
            PendingCount(nodes) - (if Pending(nodes[i]) then 1 else 0) + if Pending(node) then 1 else 0
  {
    var front := nodes[..|nodes| - 1];
    if i < |front| {
      PendingUpdate(front, i, node);
      assert nodes[i := node][..|nodes| - 1] == front[i := node];
    } else {
      assert nodes[i := node][..|nodes| - 1] == front;
    }
  }

  /** value_do_arith on numbers: a VAL_ZERO operand counts as the scalar 0. */
  function DoArith(op: Op, l: Value, r: Value): Result<Value, ArithError>
    requires l.IsNumber() && r.IsNumber()
  {
    match ArithInt(op, l.AsInt(), r.AsInt())
    case Ok(n) => Ok(Scalar(n))
    case Err(error) => Err(error)
  }

  /** The operation on any values; Bad when there is no number. */
  function Apply(op: Op, a: Value, b: Value): Value {
    if !a.IsNumber() || !b.IsNumber() then Bad
    else match DoArith(op, a, b) case Ok(v) => v case Err(_) => Bad
  }

  // ----- definitions read as equations -----

  /** The value of e when the names have the values env gives them. */
  function Eval(e: Expr, env: map<string, Value>): Value {
    match e
    case Lit(n) => if n == 0 then Zero else Scalar(n)
    case Name(x) => if x in env then env[x] else Uninit
    case Group(c) => Eval(c, env)
    case Bin(op, l, r) => Apply(op, Eval(l, env), Eval(r, env))
  }

  lemma {:induction false} EvalSame(e: Expr, env: map<string, Value>, env': map<string, Value>)
    requires forall x :: x in Names(e) ==> x in env && x in env' && env[x] == env'[x]
    ensures Eval(e, env) == Eval(e, env')
  {
    match e
    case Lit(_) =>
    case Name(_) =>
    case Group(c) => EvalSame(c, env, env');
    case Bin(_, l, r) =>
      EvalSame(l, env, env');
      EvalSame(r, env, env');
  }

  /** env gives every defined name a number, and that number is the value of its definition. */
  ghost predicate Solves(defs: map<string, Expr>, env: map<string, Value>) {
    && env.Keys == defs.Keys
    && forall x :: x in defs ==> env[x].IsNumber() && env[x] == Eval(defs[x], env)
  }

  /** Every name used is defined, and has a smaller rank than the name it defines: the
      definitions are closed and free of cycles. */
  ghost predicate Ranked(defs: map<string, Expr>, rank: map<string, nat>) {
    && rank.Keys == defs.Keys
    && forall x, y :: x in defs && y in Names(defs[x]) ==> y in defs && rank[y] < rank[x]
  }

  ghost predicate Solvable(defs: map<string, Expr>) {
    exists rank, env :: Ranked(defs, rank) && Solves(defs, env)
  }

  /** Definitions without cycles have at most one solution. */
  lemma {:induction false} SolutionUnique(defs: map<string, Expr>, rank: map<string, nat>,
                                          env: map<string, Value>, env': map<string, Value>, x: string)
    requires Ranked(defs, rank) && Solves(defs, env) && Solves(defs, env') && x in defs
    ensures env[x] == env'[x]
    decreases rank[x]
  {
    forall y | y in Names(defs[x])
      ensures y in env && y in env' && env[y] == env'[y]
    {
      SolutionUnique(defs, rank, env, env', y);
    }
    EvalSame(defs[x], env, env');
  }

  /** So two accepted analyses of the same definitions, in whatever order they are written, give
      every name the same value. */
  lemma OrderIrrelevant(defs: map<string, Expr>, env: map<string, Value>, env': map<string, Value>)
    requires Solvable(defs) && Solves(defs, env) && Solves(defs, env')
    ensures env == env'
  {
    hide Ranked, Eval;
    var rank, sol :| Ranked(defs, rank) && Solves(defs, sol);
    forall x | x in defs
      ensures env[x] == env'[x]
    {
      hide Solves;
      SolutionUnique(defs, rank, env, env', x);
    }
    SameMaps(env, env');
  }

  lemma SameMaps<K, V>(a: map<K, V>, b: map<K, V>)
    requires a.Keys == b.Keys && forall k :: k in a ==> a[k] == b[k]
    ensures a == b
  {
  }

  /** The integer that an expression is, when its names are the given integers and no operation is
      bounded. */
  function Whole(e: Expr, ints: map<string, int>): Option<int> {
    match e
    case Lit(n) => Some(n as int)
    case Name(x) => if x in ints then Some(ints[x]) else None
    case Group(c) => Whole(c, ints)
    case Bin(op, l, r) =>
      var a, b := Whole(l, ints), Whole(r, ints);
      if a.None? || b.None? then None
      else
        match op
        case Add => Some(a.value + b.value)
        case Sub => Some(a.value - b.value)
        case Mul => Some(a.value * b.value)
        case Div => if b.value == 0 then None else Some(TruncDiv(a.value, b.value))
  }

  function Ints(env: map<string, Value>): map<string, int> {
    map x | x in env && env[x].IsNumber() :: env[x].AsInt() as int
  }

  lemma {:induction false} EvalWhole(e: Expr, env: map<string, Value>)
    requires Eval(e, env).IsNumber()
    ensures Whole(e, Ints(env)) == Some(Eval(e, env).AsInt() as int)
  {
    match e
    case Lit(_) =>
    case Name(_) =>
    case Group(c) => EvalWhole(c, env);
    case Bin(_, l, r) =>
      EvalWhole(l, env);
      EvalWhole(r, env);
  }

  /** A solution solves the definitions as equations between unbounded integers. */
  lemma SolvesWhole(defs: map<string, Expr>, env: map<string, Value>, x: string)
    requires Solves(defs, env) && x in defs
    ensures x in Ints(env) && Whole(defs[x], Ints(env)) == Some(Ints(env)[x])
  {
    EvalWhole(defs[x], env);
  }

  /** A walk along the definitions: each name is used by the definition of the one before. */
  ghost predicate Walk(defs: map<string, Expr>, path: seq<string>) {
    && (forall i :: 0 <= i < |path| ==> path[i] in defs)
    && (forall i, j :: 0 <= i < j < |path| && j == i + 1 ==> path[j] in Names(defs[path[i]]))
  }

  ghost predicate OnCycle(defs: map<string, Expr>, x: string) {
    exists path :: |path| > 1 && Walk(defs, path) && path[0] == x && path[|path| - 1] == x
  }

  // ----- what a single expression denotes, whatever becomes of the other definitions -----

  /** The value of e when names are replaced by their definitions at most n deep. */
  function Unfold(defs: map<string, Expr>, n: nat, e: Expr): Value
    decreases n, e
  {
    match e
    case Lit(k) => if k == 0 then Zero else Scalar(k)
    case Name(x) => if n == 0 || x !in defs then Uninit else Unfold(defs, n - 1, defs[x])
    case Group(c) => Unfold(defs, n, c)
    case Bin(op, l, r) => Apply(op, Unfold(defs, n, l), Unfold(defs, n, r))
  }

  ghost predicate Denotes(defs: map<string, Expr>, e: Expr, v: Value) {
    v.IsNumber() && exists n: nat :: Unfold(defs, n, e) == v
  }

  ghost predicate HasValue(defs: map<string, Expr>, e: Expr) {
    exists n: nat :: Unfold(defs, n, e).IsNumber()
  }

  /** v is the number that e denotes, or no number when e denotes none. */
  ghost predicate Means(defs: map<string, Expr>, e: Expr, v: Value) {
    if v.IsNumber() then Denotes(defs, e, v) else !HasValue(defs, e)
  }

  /** Unfolding deeper does not change a number. */
  lemma {:induction false} UnfoldMore(defs: map<string, Expr>, n: nat, m: nat, e: Expr)
    requires n <= m && Unfold(defs, n, e).IsNumber()
    ensures Unfold(defs, m, e) == Unfold(defs, n, e)
    decreases n, e
  {
    match e
    case Lit(_) =>
    case Name(x) => UnfoldMore(defs, n - 1, m - 1, defs[x]);
    case Group(c) => UnfoldMore(defs, n, m, c);
    case Bin(_, l, r) =>
      UnfoldMore(defs, n, m, l);
      UnfoldMore(defs, n, m, r);
  }

  /** An expression denotes at most one number. */
  lemma DenotesOnce(defs: map<string, Expr>, e: Expr, v: Value, w: Value)
    requires Denotes(defs, e, v) && Denotes(defs, e, w)
    ensures v == w
  {
    var n: nat :| Unfold(defs, n, e) == v;
    var m: nat :| Unfold(defs, m, e) == w;
    if n <= m {
      UnfoldMore(defs, n, m, e);
    } else {
      UnfoldMore(defs, m, n, e);
    }
  }

  /** The names in an expression that has a value have values at a smaller depth. */
  lemma {:induction false} NameNeeded(defs: map<string, Expr>, n: nat, e: Expr, y: string)
    requires Unfold(defs, n, e).IsNumber() && y in Names(e)
    ensures n > 0 && y in defs && Unfold(defs, n - 1, defs[y]).IsNumber()
    decreases e
  {
    match e
    case Name(_) =>
    case Group(c) => NameNeeded(defs, n, c, y);
    case Bin(_, l, r) =>
      if y in Names(l) {
        NameNeeded(defs, n, l, y);
      } else {
        NameNeeded(defs, n, r, y);
      }
  }

  /** f is e or a part of it. */
  predicate Subtree(f: Expr, e: Expr) {
    f == e ||
    match e
    case Lit(_) => false
    case Name(_) => false
    case Group(c) => Subtree(f, c)
    case Bin(_, l, r) => Subtree(f, l) || Subtree(f, r)
  }

  lemma {:induction false} SubtreeNames(f: Expr, e: Expr)
    requires Subtree(f, e)
    ensures Names(f) <= Names(e)
  {
    if f != e {
      match e
      case Group(c) => SubtreeNames(f, c);
      case Bin(_, l, r) =>
        if Subtree(f, l) {
          SubtreeNames(f, l);
        } else {
          SubtreeNames(f, r);
        }
    }
  }

  lemma {:induction false} SubtreeTrans(f: Expr, g: Expr, e: Expr)
    requires Subtree(f, g) && Subtree(g, e)
    ensures Subtree(f, e)
  {
    if g != e {
      match e
      case Group(c) => SubtreeTrans(f, g, c);
      case Bin(_, l, r) =>
        if Subtree(g, l) {
          SubtreeTrans(f, g, l);
        } else {
          SubtreeTrans(f, g, r);
        }
    }
  }

  /** A part without a value leaves the whole without one. */
  lemma {:induction false} SubtreeNeeded(defs: map<string, Expr>, n: nat, f: Expr, e: Expr)
    requires Subtree(f, e) && Unfold(defs, n, e).IsNumber()
    ensures Unfold(defs, n, f).IsNumber()
    decreases e
  {
    if f != e {
      match e
      case Group(c) => SubtreeNeeded(defs, n, f, c);
      case Bin(_, l, r) =>
        if Subtree(f, l) {
          SubtreeNeeded(defs, n, f, l);
        } else {
          SubtreeNeeded(defs, n, f, r);
        }
    }
  }

  // ----- how the meaning of an expression follows from the meaning of its parts -----

  lemma MeansLit(defs: map<string, Expr>, n: int64)
    ensures Means(defs, Lit(n), if n == 0 then Zero else Scalar(n))
  {
    assert Unfold(defs, 0, Lit(n)) == if n == 0 then Zero else Scalar(n);
  }

  lemma MeansGroup(defs: map<string, Expr>, c: Expr, v: Value)
    requires Means(defs, c, v)
    ensures Means(defs, Group(c), v)
  {
    forall n: nat
      ensures Unfold(defs, n, Group(c)) == Unfold(defs, n, c)
    {
    }
  }

  lemma NameValue(defs: map<string, Expr>, x: string)
    ensures HasValue(defs, Name(x)) <==> x in defs && HasValue(defs, defs[x])
  {
    if HasValue(defs, Name(x)) {
      var n: nat :| Unfold(defs, n, Name(x)).IsNumber();
      assert n > 0 && Unfold(defs, n - 1, defs[x]).IsNumber();
    }
    if x in defs && HasValue(defs, defs[x]) {
      var n: nat :| Unfold(defs, n, defs[x]).IsNumber();
      assert Unfold(defs, n + 1, Name(x)).IsNumber();
    }
  }

  lemma MeansName(defs: map<string, Expr>, x: string, v: Value)
    requires if x in defs then Means(defs, defs[x], v) else !v.IsNumber()
    ensures Means(defs, Name(x), v)
  {
    if v.IsNumber() {
      var n: nat :| Unfold(defs, n, defs[x]) == v;
      assert Unfold(defs, n + 1, Name(x)) == v;
    } else {
      NameValue(defs, x);
    }
  }

  lemma BinValue(defs: map<string, Expr>, n: nat, e: Expr)
    requires e.Bin? && Unfold(defs, n, e).IsNumber()
    ensures Unfold(defs, n, e) == Apply(e.op, Unfold(defs, n, e.l), Unfold(defs, n, e.r))
    ensures Denotes(defs, e.l, Unfold(defs, n, e.l)) && Denotes(defs, e.r, Unfold(defs, n, e.r))
  {
  }

  lemma MeansBin(defs: map<string, Expr>, e: Expr, a: Value, b: Value)
    requires e.Bin? && Means(defs, e.l, a) && Means(defs, e.r, b) && a.IsNumber() && b.IsNumber()
    ensures Means(defs, e, Apply(e.op, a, b))
  {
    var n: nat :| Unfold(defs, n, e.l) == a;
    var m: nat :| Unfold(defs, m, e.r) == b;
    var k := if n < m then m else n;
    UnfoldMore(defs, n, k, e.l);
    UnfoldMore(defs, m, k, e.r);
    assert Unfold(defs, k, e) == Apply(e.op, a, b);
    forall i: nat | Unfold(defs, i, e).IsNumber()
      ensures Unfold(defs, i, e) == Apply(e.op, a, b)
    {
      BinValue(defs, i, e);
      DenotesOnce(defs, e.l, a, Unfold(defs, i, e.l));
      DenotesOnce(defs, e.r, b, Unfold(defs, i, e.r));
    }
  }

  /** An operation with an operand that has no value has none. */
  lemma BadOperand(defs: map<string, Expr>, e: Expr)
    requires e.Bin? && (!HasValue(defs, e.l) || !HasValue(defs, e.r))
    ensures !HasValue(defs, e)
  {
    forall n: nat
      ensures !Unfold(defs, n, e).IsNumber()
    {
      assert !Unfold(defs, n, e.l).IsNumber() || !Unfold(defs, n, e.r).IsNumber();
    }
  }

  // ----- the two readings agree -----

  /** The definitions are solvable as equations exactly when every one of them has a value. */
  lemma SolvableIffValues(defs: map<string, Expr>)
    ensures Solvable(defs) <==> forall x :: x in defs ==> HasValue(defs, defs[x])
  {
    hide HasValue;
    if Solvable(defs) {
      var rank, env :| Ranked(defs, rank) && Solves(defs, env);
      forall x | x in defs
        ensures HasValue(defs, defs[x])
      {
        SolvedHasValue(defs, rank, env, x);
      }
    }
    if forall x :: x in defs ==> HasValue(defs, defs[x]) {
      ValuesSolvable(defs);
    }
  }

  lemma SolvedHasValue(defs: map<string, Expr>, rank: map<string, nat>, env: map<string, Value>, x: string)
    requires Ranked(defs, rank) && Solves(defs, env) && x in defs
    ensures HasValue(defs, defs[x])
  {
    hide Unfold, Eval, HasValue;
    RankLower(defs, rank, x);
    SolvedUnfold(defs, rank, env, rank[x], defs[x]);
    IsValue(defs, rank[x], defs[x]);
  }

  lemma RankLower(defs: map<string, Expr>, rank: map<string, nat>, x: string)
    requires Ranked(defs, rank) && x in defs
    ensures x in rank && forall y :: y in Names(defs[x]) ==> y in defs && rank[y] < rank[x]
  {
  }

  lemma IsValue(defs: map<string, Expr>, n: nat, e: Expr)
    requires Unfold(defs, n, e).IsNumber()
    ensures HasValue(defs, e)
  {
  }

  lemma ValuesSolvable(defs: map<string, Expr>)
    requires forall x :: x in defs ==> HasValue(defs, defs[x])
    ensures Solvable(defs)
  {
    var env := map x | x in defs :: Unfold(defs, Depth(defs, defs[x]), defs[x]);
    DepthRanks(defs);
    ValuesSolve(defs, env);
    hide Ranked, Solves;
    assert Solvable(defs);
  }

  lemma SolvedName(defs: map<string, Expr>, env: map<string, Value>, x: string)
    requires Solves(defs, env) && x in defs
    ensures x in env && env[x] == Eval(defs[x], env)
  {
  }

  lemma {:induction false} SolvedUnfold(defs: map<string, Expr>, rank: map<string, nat>, env: map<string, Value>, n: nat, e: Expr)
    requires Ranked(defs, rank) && Solves(defs, env) && forall y :: y in Names(e) ==> y in defs && rank[y] < n
    ensures Unfold(defs, n, e) == Eval(e, env)
    decreases n, e
  {
    hide Ranked, Solves;
    match e
    case Lit(_) =>
    case Name(x) =>
      assert x in Names(e);
      RankLower(defs, rank, x);
      SolvedName(defs, env, x);
      SolvedUnfold(defs, rank, env, n - 1, defs[x]);
    case Group(c) => SolvedUnfold(defs, rank, env, n, c);
    case Bin(_, l, r) =>
      SolvedUnfold(defs, rank, env, n, l);
      SolvedUnfold(defs, rank, env, n, r);
  }

  /** What every definition denotes is a solution. */
  lemma ValuesSolve(defs: map<string, Expr>, env: map<string, Value>)
    requires env.Keys == defs.Keys && forall x :: x in defs ==> Denotes(defs, defs[x], env[x])
    ensures Solves(defs, env)
  {
    forall x | x in defs
      ensures env[x] == Eval(defs[x], env)
    {
      var n: nat :| Unfold(defs, n, defs[x]) == env[x];
      UnfoldEval(defs, env, n, defs[x]);
    }
  }

  lemma {:induction false} UnfoldEval(defs: map<string, Expr>, env: map<string, Value>, n: nat, e: Expr)
    requires env.Keys == defs.Keys && (forall x :: x in defs ==> Denotes(defs, defs[x], env[x]))
    requires Unfold(defs, n, e).IsNumber()
    ensures Eval(e, env) == Unfold(defs, n, e)
    decreases e
  {
    match e
    case Lit(_) =>
    case Name(x) => DenotesOnce(defs, defs[x], env[x], Unfold(defs, n - 1, defs[x]));
    case Group(c) => UnfoldEval(defs, env, n, c);
    case Bin(_, l, r) =>
      UnfoldEval(defs, env, n, l);
      UnfoldEval(defs, env, n, r);
  }

  /** How deep e has to be unfolded. */
  ghost function Depth(defs: map<string, Expr>, e: Expr): (d: nat)
    requires HasValue(defs, e)
    ensures Unfold(defs, d, e).IsNumber()
    ensures forall m: nat :: Unfold(defs, m, e).IsNumber() ==> d <= m
  {
    var n: nat :| Unfold(defs, n, e).IsNumber();
    Least(defs, e, n)
  }

  ghost function Least(defs: map<string, Expr>, e: Expr, n: nat): (d: nat)
    requires Unfold(defs, n, e).IsNumber()
    ensures Unfold(defs, d, e).IsNumber()
    ensures forall m: nat :: Unfold(defs, m, e).IsNumber() ==> d <= m
  {
    if n > 0 && Unfold(defs, n - 1, e).IsNumber() then Least(defs, e, n - 1)
    else
      ShallowerHasNone(defs, e, n);
      n
  }

  lemma ShallowerHasNone(defs: map<string, Expr>, e: Expr, n: nat)
    requires n == 0 || !Unfold(defs, n - 1, e).IsNumber()
    ensures forall m: nat :: Unfold(defs, m, e).IsNumber() ==> n <= m
  {
    forall m: nat | Unfold(defs, m, e).IsNumber()
      ensures n <= m
    {
      if m < n {
        UnfoldMore(defs, m, n - 1, e);
      }
    }
  }

  lemma DepthRanks(defs: map<string, Expr>)
    requires forall x :: x in defs ==> HasValue(defs, defs[x])
    ensures Ranked(defs, map x | x in defs :: Depth(defs, defs[x]))
  {
    forall x, y | x in defs && y in Names(defs[x])
      ensures y in defs && Depth(defs, defs[y]) < Depth(defs, defs[x])
    {
      NameNeeded(defs, Depth(defs, defs[x]), defs[x], y);
    }
  }
}
