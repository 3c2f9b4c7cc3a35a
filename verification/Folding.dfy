// Partial folding of expressions over constants and runtime operands of type int: what
// source/analysis.c does to the tree, and what the code that source/codegen.c emits for the
// result computes.
module Folding {
  import opened Arith
  import opened Ast
  import opened Int32
  import opened Wrappers

  /** The values for which is_comptime_known holds. */
  type Number = v: Value | v.IsNumber() witness Zero

  /** What a name stands for: a constant with its value, or a variable of type int. */
  datatype Binding = Constant(v: Number) | Variable

  type Scope = map<string, Binding>

  /** What analyze_node returns: VAL_BAD, VAL_UNINIT, a value, or VAL_RUNTIME of type int. */
  datatype Outcome = NoValue | NoSymbol | Comptime(v: Number) | RuntimeInt

  predicate Accepted(o: Outcome) {
    o.Comptime? || o.RuntimeInt?
  }

  /** type_is_number on the type of an accepted operand; the type of VAL_ZERO is not a number. */
  predicate IsInteger(o: Outcome) {
    o.RuntimeInt? || (o.Comptime? && o.v.Scalar?)
  }

  function Lookup(x: string, scope: Scope): Outcome {
    if x !in scope then NoSymbol
    else match scope[x] case Constant(v) => Comptime(v) case Variable => RuntimeInt
  }

  function Combine(op: Op, a: Outcome, b: Outcome): Outcome {
    if a.Comptime? && b.Comptime? then
      match DoArith(op, a.v, b.v) case Ok(v) => Comptime(v) case Err(_) => NoValue
    else if IsInteger(a) && IsInteger(b) then RuntimeInt
    else NoValue
  }

  /** What the analysis makes of a tree. */
  function Classify(e: Expr, scope: Scope): Outcome {
    match e
    case Lit(n) => Comptime(if n == 0 then Zero else Scalar(n))
    case Name(x) => Lookup(x, scope)
    case Group(c) => Classify(c, scope)
    case Bin(op, l, r) => Combine(op, Classify(l, scope), Classify(r, scope))
  }

  // ----- which trees are rejected, said of the tree as written -----

  /** What the constants of a scope stand for. */
  function Constants(scope: Scope): map<string, Value> {
    map x | x in scope && scope[x].Constant? :: scope[x].v
  }

  predicate HasVariable(e: Expr, scope: Scope) {
    match e
    case Lit(_) => false
    case Name(x) => x in scope && scope[x].Variable?
    case Group(c) => HasVariable(c, scope)
    case Bin(_, l, r) => HasVariable(l, scope) || HasVariable(r, scope)
  }

  /** The literal 0, or a constant that stands for it, in parentheses or not. */
  predicate ZeroLiteral(e: Expr, scope: Scope) {
    match e
    case Lit(n) => n == 0
    case Name(x) => x in scope && scope[x] == Constant(Zero)
    case Group(c) => ZeroLiteral(c, scope)
    case Bin(_, _, _) => false
  }

  /** A name without a binding; an operation on constants that 64-bit arithmetic refuses; or an
      operation on a variable and the literal 0. */
  predicate Refused(e: Expr, scope: Scope) {
    match e
    case Lit(_) => false
    case Name(x) => x !in scope
    case Group(_) => false
    case Bin(op, l, r) =>
      var a, b := Eval(l, Constants(scope)), Eval(r, Constants(scope));
      || (a.IsNumber() && b.IsNumber() && ArithInt(op, a.AsInt(), b.AsInt()).Err?)
      || (HasVariable(l, scope) && ZeroLiteral(r, scope))
      || (ZeroLiteral(l, scope) && HasVariable(r, scope))
  }

  ghost predicate Rejected(e: Expr, scope: Scope) {
    exists f :: Subtree(f, e) && Refused(f, scope)
  }

  lemma RejectedParts(e: Expr, scope: Scope)
    ensures Rejected(e, scope) <==>
            || Refused(e, scope) || (e.Group? && Rejected(e.e, scope))
            || (e.Bin? && (Rejected(e.l, scope) || Rejected(e.r, scope)))
  {
    if Refused(e, scope) {
      assert Subtree(e, e);
    }
    if e.Group? && Rejected(e.e, scope) {
      var f :| Subtree(f, e.e) && Refused(f, scope);
      assert Subtree(f, e);
    }
    if e.Bin? && Rejected(e.l, scope) {
      var f :| Subtree(f, e.l) && Refused(f, scope);
      assert Subtree(f, e);
    }
    if e.Bin? && Rejected(e.r, scope) {
      var f :| Subtree(f, e.r) && Refused(f, scope);
      assert Subtree(f, e);
    }
  }

  /** What the syntax says of an accepted tree: it is known at compile time exactly when it has no
      variable, with the value it has under the constants. */
  ghost predicate Known(e: Expr, scope: Scope) {
    var o := Classify(e, scope);
    && (Accepted(o) ==> (o.RuntimeInt? <==> HasVariable(e, scope)))
    && (Accepted(o) ==> (o == Comptime(Zero) <==> ZeroLiteral(e, scope)))
    && (o.Comptime? ==> Eval(e, Constants(scope)) == o.v)
    && (HasVariable(e, scope) ==> !Eval(e, Constants(scope)).IsNumber())
  }

  lemma {:induction false} AllKnown(e: Expr, scope: Scope)
    ensures Known(e, scope)
  {
    match e
    case Lit(_) =>
    case Name(_) =>
    case Group(c) => AllKnown(c, scope);
    case Bin(_, l, r) =>
      AllKnown(l, scope);
      AllKnown(r, scope);
  }

  /** A tree is accepted exactly when no part of it is refused. */
  lemma {:induction false} AcceptedIff(e: Expr, scope: Scope)
    ensures Accepted(Classify(e, scope)) <==> !Rejected(e, scope)
  {
    RejectedParts(e, scope);
    match e
    case Lit(_) =>
    case Name(_) =>
    case Group(c) => AcceptedIff(c, scope);
    case Bin(op, l, r) =>
      AcceptedIff(l, scope);
      AcceptedIff(r, scope);
      hide Rejected, Known, Refused, Classify;
      AllKnown(l, scope);
      AllKnown(r, scope);
      AcceptedBin(op, l, r, scope);
  }

  lemma AcceptedBin(op: Op, l: Expr, r: Expr, scope: Scope)
    requires Known(l, scope) && Known(r, scope)
    ensures Accepted(Classify(Bin(op, l, r), scope)) <==>
            Accepted(Classify(l, scope)) && Accepted(Classify(r, scope)) && !Refused(Bin(op, l, r), scope)
  {
  }

  /** A zero that was computed is a number beside a variable, and the literal is not. */
  lemma ZerosDiffer(x: string, scope: Scope)
    requires x in scope && scope[x].Variable?
    ensures !Rejected(Bin(Add, Group(Bin(Sub, Lit(1), Lit(1))), Name(x)), scope)
    ensures Rejected(Bin(Add, Name(x), Lit(0)), scope)
  {
    var computed := Bin(Sub, Lit(1), Lit(1));
    AcceptedIff(Bin(Add, Group(computed), Name(x)), scope);
    AcceptedIff(Bin(Add, Name(x), Lit(0)), scope);
    assert Classify(computed, scope) == Comptime(Scalar(0));
    assert Classify(Group(computed), scope) == Comptime(Scalar(0));
  }

  // ----- what a tree computes on 32 bits -----

  function Machine2(op: Op, a: Option<int>, b: Option<int>): Option<int> {
    if a.Some? && b.Some? then Machine(op, a.value, b.value) else None
  }

  /** The values the variables have when the code runs. */
  type Env = map<string, int>

  ghost predicate Runs(scope: Scope, env: Env) {
    forall x :: x in scope && scope[x].Variable? ==> x in env && Fits32(env[x])
  }

  /** The tree computed with 32-bit arithmetic throughout; constants are cut to 32 bits. */
  function Compute(e: Expr, scope: Scope, env: Env): Option<int> {
    match e
    case Lit(n) => Some(Wrap(n as int))
    case Name(x) =>
      if x in scope && scope[x].Constant? then Some(Wrap(scope[x].v.AsInt() as int))
      else if x in env then Some(env[x])
      else None
    case Group(c) => Compute(c, scope, env)
    case Bin(op, l, r) => Machine2(op, Compute(l, scope, env), Compute(r, scope, env))
  }

  // ----- the folded tree -----

  /** The nodes from lo to id are what is left of e: a subtree with a value known at compile time
      is one node with that value, unless it is in parentheses. */
  ghost predicate Folded(nodes: seq<Node>, lo: nat, id: nat, e: Expr, scope: Scope)
    decreases e
  {
    lo <= id < |nodes| &&
    match e
    case Lit(n) => nodes[id] == ValueNode(if n == 0 then Zero else Scalar(n))
    case Name(x) =>
      var o := Lookup(x, scope);
      if o.Comptime? then nodes[id] == ValueNode(o.v) else nodes[id] == Ident(x, true)
    case Group(c) => lo < id && nodes[id] == Grouping(id - 1, true) && Folded(nodes, lo, id - 1, c, scope)
    case Bin(op, l, r) =>
      var o := Classify(e, scope);
      if o.Comptime? then nodes[id] == ValueNode(o.v)
      else
        && lo < id && nodes[id].Binary? && nodes[id] == Binary(op, nodes[id].lhs, id - 1, true)
        && lo <= nodes[id].lhs < id - 1
        && Folded(nodes, lo, nodes[id].lhs, l, scope) && Folded(nodes, nodes[id].lhs + 1, id - 1, r, scope)
  }

  lemma {:induction false} FoldedFrame(nodes: seq<Node>, nodes': seq<Node>, lo: nat, id: nat, e: Expr, scope: Scope)
    requires Folded(nodes, lo, id, e, scope) && |nodes'| == |nodes|
    requires forall i :: lo <= i <= id ==> nodes'[i] == nodes[i]
    ensures Folded(nodes', lo, id, e, scope)
    decreases e
  {
    match e
    case Lit(_) =>
    case Name(_) =>
    case Group(c) => FoldedFrame(nodes, nodes', lo, id - 1, c, scope);
    case Bin(_, l, r) =>
      if !Classify(e, scope).Comptime? {
        FoldedFrame(nodes, nodes', lo, nodes[id].lhs, l, scope);
        FoldedFrame(nodes, nodes', nodes[id].lhs + 1, id - 1, r, scope);
      }
  }

  lemma FoldedBin(nodes: seq<Node>, lo: nat, lhs: nat, id: nat, op: Op, l: Expr, r: Expr, scope: Scope)
    requires lo <= lhs < id - 1 && id < |nodes|
    requires Folded(nodes, lo, lhs, l, scope) && Folded(nodes, lhs + 1, id - 1, r, scope)
    requires var o := Classify(Bin(op, l, r), scope);
      nodes[id] == if o.Comptime? then ValueNode(o.v) else Binary(op, lhs, id - 1, true)
    ensures Folded(nodes, lo, id, Bin(op, l, r), scope)
  {
    hide Classify, Lookup;
  }

  /** What the code for a node computes: codegen_expr, codegen_value with llvm_value's cut to 32
      bits, codegen_ident and codegen_binary. */
  function Emit(nodes: seq<Node>, id: nat, env: Env): Option<int>
    decreases id
  {
    if id >= |nodes| then None
    else
      match nodes[id]
      case ValueNode(v) => if v.IsNumber() then Some(Wrap(v.AsInt() as int)) else None
      case Ident(x, _) => if x in env then Some(env[x]) else None
      case Grouping(child, _) => if child < id then Emit(nodes, child, env) else None
      case Binary(op, l, r, _) => if l < id && r < id then Machine2(op, Emit(nodes, l, env), Emit(nodes, r, env)) else None
      case _ => None
  }

  // ----- folding in place -----

  class Folder {
    const scope: Scope
    var nodes: seq<Node>
    var hasError: bool

    constructor (nodes: seq<Node>, scope: Scope)
      ensures this.nodes == nodes && this.scope == scope && !hasError
    {
      this.nodes, this.scope, hasError := nodes, scope, false;
    }

    /** Only the nodes from lo to id may differ. */
    twostate predicate Within(lo: nat, id: nat)
      reads this
    {
      |nodes| == |old(nodes)| && forall i :: 0 <= i < |nodes| && !(lo <= i <= id) ==> nodes[i] == old(nodes)[i]
    }

    /** analyze_node on an expression. */
    method Analyze(id: nat, ghost lo: nat, ghost e: Expr) returns (r: Outcome)
      requires Holds(nodes, lo, id, e, true)
      modifies this
      ensures Within(lo, id) && r == Classify(e, scope)
      ensures Accepted(r) ==> Folded(nodes, lo, id, e, scope)
      ensures hasError <==> old(hasError) || Rejected(e, scope)
      ensures hasError <==> old(hasError) || !Accepted(r)
      decreases id, 1
    {
      AcceptedIff(e, scope);
      hide Rejected;
      match nodes[id]
      case IntegerLit(n, _) =>
        nodes := nodes[id := IntegerLit(n, true)];
        r := Comptime(if n == 0 then Zero else Scalar(n));
        nodes := nodes[id := ValueNode(r.v)];
      case Ident(x, _) =>
        nodes := nodes[id := Ident(x, true)];
        r := AnalyzeIdent(id, x);
      case Grouping(child, _) =>
        nodes := nodes[id := Grouping(child, true)];
        HoldsFrame(old(nodes), nodes, lo, child, e.e, true);
        r := Analyze(child, lo, e.e);
      case Binary(op, l, rhs, _) =>
        nodes := nodes[id := Binary(op, l, rhs, true)];
        HoldsFrame(old(nodes), nodes, lo, l, e.l, true);
        HoldsFrame(old(nodes), nodes, l + 1, rhs, e.r, true);
        r := AnalyzeBinary(id, op, l, rhs, lo, e);
    }

    method AnalyzeIdent(id: nat, x: string) returns (r: Outcome)
      requires id < |nodes| && nodes[id] == Ident(x, true)
      modifies this
      ensures Within(id, id) && r == Lookup(x, scope)
      ensures nodes[id] == if r.Comptime? then ValueNode(r.v) else Ident(x, true)
      ensures hasError <==> old(hasError) || !Accepted(r)
    {
      r := Lookup(x, scope);
      match r
      case NoSymbol => hasError := true;
      case Comptime(v) => nodes := nodes[id := ValueNode(v)];
      case _ =>
    }

    method AnalyzeBinary(id: nat, op: Op, l: nat, rhs: nat, ghost lo: nat, ghost e: Expr) returns (r: Outcome)
      requires e.Bin? && e.op == op && lo <= l < rhs == id - 1 && id < |nodes| && nodes[id] == Binary(op, l, rhs, true)
      requires Holds(nodes, lo, l, e.l, true) && Holds(nodes, l + 1, rhs, e.r, true)
      modifies this
      ensures Within(lo, id) && r == Classify(e, scope)
      ensures Accepted(r) ==> Folded(nodes, lo, id, e, scope)
      ensures hasError <==> old(hasError) || Rejected(e, scope)
      ensures hasError <==> old(hasError) || !Accepted(r)
      decreases id, 0
    {
      AcceptedIff(e, scope);
      hide Folded, Holds, Rejected;
      var a := Analyze(l, lo, e.l);
      if a == NoValue {
        return NoValue;
      }
      HoldsFrame(old(nodes), nodes, l + 1, rhs, e.r, true);
      ghost var left := nodes;
      var b := Analyze(rhs, l + 1, e.r);
      if b == NoValue {
        return NoValue;
      }
      if Accepted(a) {
        FoldedFrame(left, nodes, lo, l, e.l, scope);
      }
      ghost var both := nodes;
      r := Join(id, op, a, b);
      if Accepted(r) {
        FoldedFrame(both, nodes, lo, l, e.l, scope);
        FoldedFrame(both, nodes, l + 1, rhs, e.r, scope);
        FoldedBin(nodes, lo, l, id, op, e.l, e.r, scope);
      }
    }

    /** The end of analyze_binary, with resolve_binary_op. */
    method Join(id: nat, op: Op, a: Outcome, b: Outcome) returns (r: Outcome)
      requires id < |nodes| && a != NoValue && b != NoValue
      modifies this
      ensures Within(id, id) && r == Combine(op, a, b)
      ensures nodes[id] == if r.Comptime? then ValueNode(r.v) else old(nodes)[id]
      ensures hasError <==> old(hasError) || !Accepted(r)
    {
      if !a.Comptime? || !b.Comptime? {
        if !IsInteger(a) || !IsInteger(b) {
          hasError := true;
          return NoValue;
        }
        return RuntimeInt;
      }
      match DoArith(op, a.v, b.v)
      case Ok(value) =>
        nodes := nodes[id := ValueNode(value)];
        r := Comptime(value);
      case Err(_) =>
        hasError := true;
        r := NoValue;
    }
  }

  // ----- folding preserves meaning -----

  /** Every division that is done at compile time is one on which 64 and 32 bits agree. */
  predicate DivisionsAgree(e: Expr, scope: Scope) {
    match e
    case Lit(_) => true
    case Name(_) => true
    case Group(c) => DivisionsAgree(c, scope)
    case Bin(op, l, r) =>
      var a, b := Classify(l, scope), Classify(r, scope);
      && DivisionsAgree(l, scope) && DivisionsAgree(r, scope)
      && (op == Div && a.Comptime? && b.Comptime? && b.v.AsInt() != 0 ==>
           QuotientAgrees(a.v.AsInt() as int, b.v.AsInt() as int))
  }

  predicate DivisionFree(e: Expr) {
    match e
    case Lit(_) => true
    case Name(_) => true
    case Group(c) => DivisionFree(c)
    case Bin(op, l, r) => op != Div && DivisionFree(l) && DivisionFree(r)
  }

  lemma {:induction false} DivisionFreeAgrees(e: Expr, scope: Scope)
    requires DivisionFree(e)
    ensures DivisionsAgree(e, scope)
  {
    match e
    case Lit(_) =>
    case Name(_) =>
    case Group(c) => DivisionFreeAgrees(c, scope);
    case Bin(_, l, r) =>
      DivisionFreeAgrees(l, scope);
      DivisionFreeAgrees(r, scope);
  }

  lemma CombineWraps(op: Op, a: Number, b: Number, v: Number)
    requires DoArith(op, a, b) == Ok(v)
    requires op == Div ==> QuotientAgrees(a.AsInt() as int, b.AsInt() as int)
    ensures Machine(op, Wrap(a.AsInt() as int), Wrap(b.AsInt() as int)) == Some(Wrap(v.AsInt() as int))
  {
    if op == Div {
      DivisionAgreesIff(a.AsInt() as int, b.AsInt() as int);
    } else {
      WrapHomomorphic(op, a.AsInt() as int, b.AsInt() as int);
    }
  }

  /** The 64-bit value of a constant subtree, cut to 32 bits, is its 32-bit value. */
  lemma {:induction false} ComptimeWraps(e: Expr, scope: Scope, env: Env)
    requires Classify(e, scope).Comptime? && DivisionsAgree(e, scope)
    ensures Compute(e, scope, env) == Some(Wrap(Classify(e, scope).v.AsInt() as int))
  {
    match e
    case Lit(_) =>
    case Name(_) =>
    case Group(c) => ComptimeWraps(c, scope, env);
    case Bin(op, l, r) =>
      ComptimeWraps(l, scope, env);
      ComptimeWraps(r, scope, env);
      CombineWraps(op, Classify(l, scope).v, Classify(r, scope).v, Classify(e, scope).v);
  }

  /** The code for the folded tree computes what 32-bit arithmetic gives for the tree as written. */
  lemma {:induction false} FoldingPreserves(nodes: seq<Node>, lo: nat, id: nat, e: Expr, scope: Scope, env: Env)
    requires Accepted(Classify(e, scope)) && Folded(nodes, lo, id, e, scope)
    requires DivisionsAgree(e, scope) && Runs(scope, env)
    ensures Emit(nodes, id, env) == Compute(e, scope, env)
    decreases e
  {
    match e
    case Lit(_) =>
    case Name(_) =>
    case Group(c) => FoldingPreserves(nodes, lo, id - 1, c, scope, env);
    case Bin(_, l, r) =>
      if Classify(e, scope).Comptime? {
        ComptimeWraps(e, scope, env);
      } else {
        FoldingPreserves(nodes, lo, nodes[id].lhs, l, scope, env);
        FoldingPreserves(nodes, nodes[id].lhs + 1, id - 1, r, scope, env);
      }
  }

  /** ... in particular for every accepted tree of + - *. */
  lemma FoldingPreservesRing(nodes: seq<Node>, lo: nat, id: nat, e: Expr, scope: Scope, env: Env)
    requires Accepted(Classify(e, scope)) && Folded(nodes, lo, id, e, scope)
    requires DivisionFree(e) && Runs(scope, env)
    ensures Emit(nodes, id, env) == Compute(e, scope, env)
  {
    DivisionFreeAgrees(e, scope);
    FoldingPreserves(nodes, lo, id, e, scope, env);
  }

  // ----- division -----

  /** Not so for division: (2147483647 + 1) / 2 is folded to 2^30, and the 32-bit code for the
      same tree computes -2^30. */
  lemma FoldedDivisionDiffers(nodes: seq<Node>, lo: nat, id: nat, scope: Scope, env: Env)
    requires var e := Bin(Div, Bin(Add, Lit(0x7FFF_FFFF), Lit(1)), Lit(2));
      Folded(nodes, lo, id, e, scope)
    ensures var e := Bin(Div, Bin(Add, Lit(0x7FFF_FFFF), Lit(1)), Lit(2));
      && Accepted(Classify(e, scope))
      && Emit(nodes, id, env) == Some(0x4000_0000) && Compute(e, scope, env) == Some(-0x4000_0000)
  {
    HalfOfSum(scope, env);
  }

  lemma HalfOfSum(scope: Scope, env: Env)
    ensures var half := Bin(Div, Bin(Add, Lit(0x7FFF_FFFF), Lit(1)), Lit(2));
      && Classify(half.l, scope) == Comptime(Scalar(0x8000_0000)) && Classify(half, scope) == Comptime(Scalar(0x4000_0000))
      && Compute(half, scope, env) == Some(-0x4000_0000)
  {
    var sum := Bin(Add, Lit(0x7FFF_FFFF), Lit(1));
    assert Classify(sum, scope) == Comptime(Scalar(0x8000_0000));
    assert Compute(sum, scope, env) == Some(INT32_MIN);
  }

  /** What FoldedDivisionDiffers shows can be hidden by the operation around it. */
  lemma DifferenceHidden(nodes: seq<Node>, lo: nat, id: nat, scope: Scope, env: Env)
    requires var e := Bin(Mul, Lit(0), Bin(Div, Bin(Add, Lit(0x7FFF_FFFF), Lit(1)), Lit(2)));
      Folded(nodes, lo, id, e, scope)
    ensures var e := Bin(Mul, Lit(0), Bin(Div, Bin(Add, Lit(0x7FFF_FFFF), Lit(1)), Lit(2)));
      && Accepted(Classify(e, scope)) && !DivisionsAgree(e, scope)
      && Emit(nodes, id, env) == Compute(e, scope, env) == Some(0)
  {
    HalfOfSum(scope, env);
    var half := Bin(Div, Bin(Add, Lit(0x7FFF_FFFF), Lit(1)), Lit(2));
    assert Classify(Bin(Mul, Lit(0), half), scope) == Comptime(Scalar(0));
  }

  /** A folded division whose operands agree with their 32-bit values agrees exactly when its own
      quotient does. */
  lemma FoldedDivisionIff(nodes: seq<Node>, lo: nat, id: nat, e: Expr, scope: Scope, env: Env)
    requires e.Bin? && e.op == Div && Classify(e, scope).Comptime? && Folded(nodes, lo, id, e, scope)
    requires DivisionsAgree(e.l, scope) && DivisionsAgree(e.r, scope)
    ensures Classify(e.l, scope).Comptime? && Classify(e.r, scope).Comptime?
    ensures var a, b := Classify(e.l, scope).v.AsInt() as int, Classify(e.r, scope).v.AsInt() as int;
      b != 0 && (Emit(nodes, id, env) == Compute(e, scope, env) <==> QuotientAgrees(a, b))
  {
    var x, y := Classify(e.l, scope), Classify(e.r, scope);
    assert DoArith(Div, x.v, y.v) == Ok(Classify(e, scope).v);
    ComptimeWraps(e.l, scope, env);
    ComptimeWraps(e.r, scope, env);
    DivisionAgreesIff(x.v.AsInt() as int, y.v.AsInt() as int);
  }
}
