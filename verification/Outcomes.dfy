// What analysing an expression comes to when no number comes out: the values that
// source/analysis.c passes on instead, and which parts of an expression are looked at.
module Outcomes {
  import opened Arith
  import opened Ast
  import opened Wrappers

  /** A name that nothing defines, or a constant defined by one. */
  predicate Unknown(v: Value) {
    v.Uninit? || v.Runtime?
  }

  /** What a name gives whose definition comes to v. */
  function Seen(v: Value): Value {
    if Unknown(v) then Runtime else v
  }

  /** What e comes to when names are replaced by their definitions at most n deep, and what lies
      deeper is bad. */
  function Outcome(defs: map<string, Expr>, n: nat, e: Expr): Value
    decreases n, e
  {
    match e
    case Lit(k) => if k == 0 then Zero else Scalar(k)
    case Name(x) =>
      if x !in defs then Uninit
      else if n == 0 then Bad
      else Seen(Outcome(defs, n - 1, defs[x]))
    case Group(c) => Outcome(defs, n, c)
    case Bin(op, l, r) => Apply(op, Outcome(defs, n, l), Outcome(defs, n, r))
  }

  /** What e comes to in the end. */
  ghost predicate Ends(defs: map<string, Expr>, e: Expr, v: Value) {
    if v == Bad then forall n: nat :: Outcome(defs, n, e) == Bad else exists n: nat :: Outcome(defs, n, e) == v
  }

  /** Replacing more names does not change what is not bad. */
  lemma {:induction false} OutcomeMore(defs: map<string, Expr>, n: nat, m: nat, e: Expr)
    requires n <= m && Outcome(defs, n, e) != Bad
    ensures Outcome(defs, m, e) == Outcome(defs, n, e)
    decreases n, e
  {
    match e
    case Lit(_) =>
    case Name(x) =>
      if x in defs {
        OutcomeMore(defs, n - 1, m - 1, defs[x]);
      }
    case Group(c) => OutcomeMore(defs, n, m, c);
    case Bin(_, l, r) =>
      OutcomeMore(defs, n, m, l);
      OutcomeMore(defs, n, m, r);
  }

  /** An expression comes to one value. */
  lemma EndsOnce(defs: map<string, Expr>, e: Expr, v: Value, w: Value)
    requires Ends(defs, e, v) && Ends(defs, e, w)
    ensures v == w
  {
    if v != Bad && w != Bad {
      var n: nat :| Outcome(defs, n, e) == v;
      var m: nat :| Outcome(defs, m, e) == w;
      if n <= m {
        OutcomeMore(defs, n, m, e);
      } else {
        OutcomeMore(defs, m, n, e);
      }
    }
  }

  /** A number comes out exactly where one is denoted. */
  lemma {:induction false} OutcomeUnfolds(defs: map<string, Expr>, n: nat, e: Expr)
    ensures Outcome(defs, n, e).IsNumber() || Unfold(defs, n, e).IsNumber() ==> Outcome(defs, n, e) == Unfold(defs, n, e)
    decreases n, e
  {
    match e
    case Lit(_) =>
    case Name(x) =>
      if x in defs && n > 0 {
        OutcomeUnfolds(defs, n - 1, defs[x]);
      }
    case Group(c) => OutcomeUnfolds(defs, n, c);
    case Bin(_, l, r) =>
      OutcomeUnfolds(defs, n, l);
      OutcomeUnfolds(defs, n, r);
  }

  lemma EndsMeans(defs: map<string, Expr>, e: Expr, v: Value)
    requires Ends(defs, e, v)
    ensures Means(defs, e, v)
  {
    if v.IsNumber() {
      var n: nat :| Outcome(defs, n, e) == v;
      OutcomeUnfolds(defs, n, e);
    } else {
      forall m: nat
        ensures !Unfold(defs, m, e).IsNumber()
      {
        OutcomeUnfolds(defs, m, e);
        if Unfold(defs, m, e).IsNumber() {
          assert Ends(defs, e, Outcome(defs, m, e));
          EndsOnce(defs, e, v, Outcome(defs, m, e));
        }
      }
    }
  }

  // ----- what an expression comes to, from what its parts come to -----

  lemma EndsLit(defs: map<string, Expr>, n: int64)
    ensures Ends(defs, Lit(n), if n == 0 then Zero else Scalar(n))
  {
    assert Outcome(defs, 0, Lit(n)) == if n == 0 then Zero else Scalar(n);
  }

  lemma EndsGroup(defs: map<string, Expr>, c: Expr, v: Value)
    requires Ends(defs, c, v)
    ensures Ends(defs, Group(c), v)
  {
    forall n: nat
      ensures Outcome(defs, n, Group(c)) == Outcome(defs, n, c)
    {
    }
  }

  lemma EndsUndefined(defs: map<string, Expr>, x: string)
    requires x !in defs
    ensures Ends(defs, Name(x), Uninit)
  {
    assert Outcome(defs, 0, Name(x)) == Uninit;
  }

  lemma EndsName(defs: map<string, Expr>, x: string, v: Value)
    requires x in defs && Ends(defs, defs[x], v)
    ensures Ends(defs, Name(x), Seen(v))
  {
    if v == Bad {
      forall n: nat
        ensures Outcome(defs, n, Name(x)) == Bad
      {
        if n > 0 {
          assert Outcome(defs, n - 1, defs[x]) == Bad;
        }
      }
    } else {
      var n: nat :| Outcome(defs, n, defs[x]) == v;
      assert Outcome(defs, n + 1, Name(x)) == Seen(v);
    }
  }

  lemma EndsBin(defs: map<string, Expr>, e: Expr, a: Value, b: Value)
    requires e.Bin? && Ends(defs, e.l, a) && Ends(defs, e.r, b)
    ensures Ends(defs, e, Apply(e.op, a, b))
  {
    if a == Bad || b == Bad {
      forall n: nat
        ensures Outcome(defs, n, e) == Bad
      {
        assert Outcome(defs, n, e.l) == Bad || Outcome(defs, n, e.r) == Bad;
      }
    } else {
      EndsBinGood(defs, e, a, b);
    }
  }

  lemma EndsBinGood(defs: map<string, Expr>, e: Expr, a: Value, b: Value)
    requires e.Bin? && Ends(defs, e.l, a) && Ends(defs, e.r, b) && a != Bad && b != Bad
    ensures Ends(defs, e, Apply(e.op, a, b))
  {
    var n: nat :| Outcome(defs, n, e.l) == a;
    var m: nat :| Outcome(defs, m, e.r) == b;
    var k := if n < m then m else n;
    forall i: nat
      ensures i >= k ==> Outcome(defs, i, e) == Apply(e.op, a, b)
      ensures i < k && Outcome(defs, i, e) != Bad ==> Outcome(defs, i, e) == Apply(e.op, a, b)
    {
      if i >= k {
        OutcomeMore(defs, n, i, e.l);
        OutcomeMore(defs, m, i, e.r);
      } else if Outcome(defs, i, e) != Bad {
        OutcomeMore(defs, i, k, e);
        OutcomeMore(defs, n, k, e.l);
        OutcomeMore(defs, m, k, e.r);
      }
    }
    assert Outcome(defs, k, e) == Apply(e.op, a, b);
  }

  /** Without names it comes to a number or to nothing good. */
  lemma {:induction false} ClosedGood(defs: map<string, Expr>, n: nat, e: Expr)
    requires Names(e) == {}
    ensures Outcome(defs, n, e) == Bad || Outcome(defs, n, e).IsNumber()
    decreases e
  {
    match e
    case Lit(_) =>
    case Name(x) => NameNamed(x);
    case Group(c) => ClosedGood(defs, n, c);
    case Bin(_, l, r) =>
  }

  lemma NameNamed(x: string)
    ensures Names(Name(x)) != {}
  {
    assert x in Names(Name(x));
  }

  lemma ClosedEndsBad(defs: map<string, Expr>, e: Expr)
    requires Names(e) == {} && !HasValue(defs, e)
    ensures Ends(defs, e, Bad)
  {
    forall n: nat
      ensures Outcome(defs, n, e) == Bad
    {
      ClosedGood(defs, n, e);
      OutcomeUnfolds(defs, n, e);
    }
  }

  // ----- cycles -----

  /** What is not bad uses no name whose definition is. */
  lemma {:induction false} OutcomeNeeds(defs: map<string, Expr>, n: nat, e: Expr, y: string)
    requires Outcome(defs, n, e) != Bad && y in Names(e) && y in defs
    ensures n > 0 && Outcome(defs, n - 1, defs[y]) != Bad
    decreases e
  {
    match e
    case Name(_) =>
    case Group(c) => OutcomeNeeds(defs, n, c, y);
    case Bin(_, l, r) =>
      if y in Names(l) {
        OutcomeNeeds(defs, n, l, y);
      } else {
        OutcomeNeeds(defs, n, r, y);
      }
  }

  lemma {:induction false} WalkDescends(defs: map<string, Expr>, path: seq<string>, n: nat)
    requires Walk(defs, path) && path != [] && Outcome(defs, n, defs[path[0]]) != Bad
    ensures n + 1 >= |path| && Outcome(defs, n + 1 - |path|, defs[path[|path| - 1]]) != Bad
    decreases |path|
  {
    if |path| > 1 {
      OutcomeNeeds(defs, n, defs[path[0]], path[1]);
      WalkDescends(defs, path[1..], n - 1);
    }
  }

  /** A name on a cycle of definitions comes to nothing good. */
  lemma CycleEndsBad(defs: map<string, Expr>, x: string)
    requires OnCycle(defs, x)
    ensures x in defs && Ends(defs, defs[x], Bad)
  {
    var path :| |path| > 1 && Walk(defs, path) && path[0] == x && path[|path| - 1] == x;
    forall n: nat
      ensures Outcome(defs, n, defs[x]) == Bad
    {
      NoneGood(defs, path, n);
    }
  }

  lemma {:induction false} NoneGood(defs: map<string, Expr>, path: seq<string>, n: nat)
    requires |path| > 1 && Walk(defs, path) && path[0] == path[|path| - 1]
    ensures Outcome(defs, n, defs[path[0]]) == Bad
    decreases n
  {
    if Outcome(defs, n, defs[path[0]]) != Bad {
      WalkDescends(defs, path, n);
      NoneGood(defs, path, n + 1 - |path|);
    }
  }

  lemma CycleHasNoValue(defs: map<string, Expr>, x: string)
    requires OnCycle(defs, x)
    ensures x in defs && !HasValue(defs, defs[x])
  {
    CycleEndsBad(defs, x);
    EndsMeans(defs, defs[x], Bad);
  }

  /** Definitions on a cycle are not solvable. */
  lemma CyclesUnsolvable(defs: map<string, Expr>, x: string)
    requires OnCycle(defs, x)
    ensures !Solvable(defs)
  {
    CycleHasNoValue(defs, x);
    SolvableIffValues(defs);
  }

  // ----- where the parts of an expression stand, and which are looked at -----

  /** How many nodes a tree has. */
  function Size(e: Expr): (n: nat)
    ensures n > 0
  {
    match e
    case Lit(_) => 1
    case Name(_) => 1
    case Group(c) => Size(c) + 1
    case Bin(_, l, r) => Size(l) + Size(r) + 1
  }

  lemma {:induction false} HoldsSize(nodes: seq<Node>, lo: nat, id: nat, e: Expr, pending: bool)
    requires Holds(nodes, lo, id, e, pending)
    ensures id - lo + 1 == Size(e)
    ensures e.Bin? ==> nodes[id].Binary? && nodes[id].lhs == id - 1 - Size(e.r)
    decreases e
  {
    match e
    case Lit(_) =>
    case Name(_) =>
    case Group(c) => HoldsSize(nodes, lo, id - 1, c, true);
    case Bin(_, l, r) =>
      HoldsSize(nodes, lo, nodes[id].lhs, l, true);
      HoldsSize(nodes, nodes[id].lhs + 1, id - 1, r, true);
  }

  /** The part f of the tree e, whose root is node id, has its root at node k and is looked at:
      a right operand is only after a left one that is not bad. */
  ghost predicate Reached(defs: map<string, Expr>, e: Expr, id: int, f: Expr, k: int) {
    (f == e && k == id) ||
    match e
    case Lit(_) => false
    case Name(_) => false
    case Group(c) => Reached(defs, c, id - 1, f, k)
    case Bin(_, l, r) =>
      || Reached(defs, l, id - 1 - Size(r), f, k)
      || (!Ends(defs, l, Bad) && Reached(defs, r, id - 1, f, k))
  }

  lemma {:induction false} ReachedTrans(defs: map<string, Expr>, e: Expr, id: int, g: Expr, j: int, f: Expr, k: int)
    requires Reached(defs, e, id, g, j) && Reached(defs, g, j, f, k)
    ensures Reached(defs, e, id, f, k)
    decreases e
  {
    if !(g == e && j == id) {
      match e
      case Group(c) => ReachedTrans(defs, c, id - 1, g, j, f, k);
      case Bin(_, l, r) =>
        if Reached(defs, l, id - 1 - Size(r), g, j) {
          ReachedTrans(defs, l, id - 1 - Size(r), g, j, f, k);
        } else {
          ReachedTrans(defs, r, id - 1, g, j, f, k);
        }
    }
  }

  lemma {:induction false} ReachedSubtree(defs: map<string, Expr>, e: Expr, id: int, f: Expr, k: int)
    requires Reached(defs, e, id, f, k)
    ensures Subtree(f, e) && id - Size(e) < k <= id
    decreases e
  {
    if !(f == e && k == id) {
      match e
      case Group(c) => ReachedSubtree(defs, c, id - 1, f, k);
      case Bin(_, l, r) =>
        if Reached(defs, l, id - 1 - Size(r), f, k) {
          ReachedSubtree(defs, l, id - 1 - Size(r), f, k);
        } else {
          ReachedSubtree(defs, r, id - 1, f, k);
        }
    }
  }
}
