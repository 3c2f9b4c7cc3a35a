// The errors that source/analysis.c reports about global constants, and which errors a program
// has, said of its definitions alone.
module Faults {
  import opened Arith
  import opened Ast
  import opened Outcomes
  import opened Wrappers

  /** What the analyser reports, with the node it reports. For a recursive declaration that is the
      declaration, which has one name. */
  datatype Report =
    | Redefinition(name: string, at: nat)
    | Recursive(name: string)
    | UndefinedSymbol(name: string, at: nat)
    | NotNumbers(at: nat)
    | Arithmetic(at: nat, op: Op, error: ArithError)

  /** A declaration of the program: the nodes lo..node are its tree, `node` the declaration. */
  datatype Decl = Decl(lo: nat, node: nat, e: Expr)

  type Program = map<string, Decl>

  function Defs(program: Program): map<string, Expr> {
    map x | x in program :: program[x].e
  }

  // ----- the faults of a program -----

  /** An operation whose operands come to a and b, neither of them bad. */
  ghost predicate Operands(defs: map<string, Expr>, f: Expr, a: Value, b: Value) {
    f.Bin? && Ends(defs, f.l, a) && Ends(defs, f.r, b) && a != Bad && b != Bad
  }

  /** What is wrong with the part f at node k, apart from what is wrong with its own parts. */
  ghost predicate Fault(defs: map<string, Expr>, f: Expr, k: int, r: Report) {
    match r
    case UndefinedSymbol(x, at) => at == k && f == Name(x) && x !in defs
    case NotNumbers(at) => at == k && exists a, b :: Operands(defs, f, a, b) && !(a.IsNumber() && b.IsNumber())
    case Arithmetic(at, op, error) => at == k && exists a, b :: Operands(defs, f, a, b) && FailsOn(f, op, a, b, error)
    case _ => false
  }

  predicate FailsOn(f: Expr, op: Op, a: Value, b: Value, error: ArithError) {
    f.Bin? && f.op == op && a.IsNumber() && b.IsNumber() && DoArith(op, a, b) == Err(error)
  }

  /** r is what is wrong with the part f, at node k, of the definition of y. */
  ghost predicate FaultIn(program: Program, y: string, f: Expr, k: int, r: Report) {
    && y in program && Reached(Defs(program), program[y].e, program[y].node - 1, f, k)
    && Fault(Defs(program), f, k, r)
  }

  ghost predicate IsFault(program: Program, r: Report) {
    exists y, f, k :: FaultIn(program, y, f, k, r)
  }

  /** A report tells the truth about the definitions. */
  ghost predicate Justified(program: Program, r: Report) {
    if r.Recursive? then OnCycle(Defs(program), r.name) else IsFault(program, r)
  }

  lemma FaultNoValue(defs: map<string, Expr>, f: Expr, k: int, r: Report)
    requires Fault(defs, f, k, r)
    ensures !HasValue(defs, f)
  {
    match r
    case UndefinedSymbol(x, _) =>
      NameValue(defs, x);
    case NotNumbers(_) =>
      var a, b :| Operands(defs, f, a, b) && !(a.IsNumber() && b.IsNumber());
      EndsMeans(defs, f.l, a);
      EndsMeans(defs, f.r, b);
      BadOperand(defs, f);
    case Arithmetic(_, op, error) =>
      var a, b :| Operands(defs, f, a, b) && FailsOn(f, op, a, b, error);
      EndsMeans(defs, f.l, a);
      EndsMeans(defs, f.r, b);
      MeansBin(defs, f, a, b);
  }

  /** Whatever is reported, the definitions have no solution. */
  lemma JustifiedUnsolvable(program: Program, r: Report)
    requires Justified(program, r)
    ensures !Solvable(Defs(program))
  {
    var defs := Defs(program);
    if r.Recursive? {
      CyclesUnsolvable(defs, r.name);
    } else {
      var y, f, k :| FaultIn(program, y, f, k, r);
      FaultNoValue(defs, f, k, r);
      ReachedSubtree(defs, program[y].e, program[y].node - 1, f, k);
      PartUnsolvable(program, y, f);
    }
  }

  lemma PartUnsolvable(program: Program, y: string, f: Expr)
    requires y in program && Subtree(f, program[y].e) && !HasValue(Defs(program), f)
    ensures !Solvable(Defs(program))
  {
    var defs := Defs(program);
    assert y in defs && defs[y] == program[y].e;
    forall n: nat
      ensures !Unfold(defs, n, defs[y]).IsNumber()
    {
      if Unfold(defs, n, defs[y]).IsNumber() {
        SubtreeNeeded(defs, n, f, defs[y]);
      }
    }
    SolvableIffValues(defs);
  }

  // ----- that every fault is reported -----

  /** Every fault in the tree e, whose root is node id, is reported. */
  ghost predicate Told(defs: map<string, Expr>, reports: seq<Report>, e: Expr, id: int) {
    forall f, k, r :: Reached(defs, e, id, f, k) && Fault(defs, f, k, r) ==> r in reports
  }

  /** The reports have a fault of the tree e itself, or that a name in it is recursive. */
  ghost predicate Own(defs: map<string, Expr>, reports: seq<Report>, e: Expr, id: int) {
    exists f, k, r :: Points(defs, reports, e, id, f, k, r)
  }

  ghost predicate Points(defs: map<string, Expr>, reports: seq<Report>, e: Expr, id: int, f: Expr, k: int, r: Report) {
    Reached(defs, e, id, f, k) && r in reports && (Fault(defs, f, k, r) || (f.Name? && r == Recursive(f.x)))
  }

  /** A walk along the definitions leads from x to one that the reports say is at fault itself. */
  ghost predicate Blamed(program: Program, reports: seq<Report>, x: string) {
    exists path :: BlamedBy(program, reports, x, path)
  }

  ghost predicate BlamedBy(program: Program, reports: seq<Report>, x: string, path: seq<string>) {
    && path != [] && path[0] == x && Walk(Defs(program), path)
    && var y := path[|path| - 1];
       y in program && Own(Defs(program), reports, program[y].e, program[y].node - 1)
  }

  /** Why the tree e, whose root is node id, comes to no number. */
  ghost predicate Excused(program: Program, reports: seq<Report>, e: Expr, id: int) {
    Own(Defs(program), reports, e, id) || exists z :: z in Names(e) && Blamed(program, reports, z)
  }

  ghost predicate More(reports: seq<Report>, reports': seq<Report>) {
    forall r :: r in reports ==> r in reports'
  }

  lemma ToldMore(defs: map<string, Expr>, reports: seq<Report>, reports': seq<Report>, e: Expr, id: int)
    requires Told(defs, reports, e, id) && More(reports, reports')
    ensures Told(defs, reports', e, id)
  {
  }

  lemma OwnMore(defs: map<string, Expr>, reports: seq<Report>, reports': seq<Report>, e: Expr, id: int)
    requires Own(defs, reports, e, id) && More(reports, reports')
    ensures Own(defs, reports', e, id)
  {
    hide Reached, Fault;
    var f, k, r :| Points(defs, reports, e, id, f, k, r);
    assert Points(defs, reports', e, id, f, k, r);
  }

  lemma BlamedMore(program: Program, reports: seq<Report>, reports': seq<Report>, x: string)
    requires Blamed(program, reports, x) && More(reports, reports')
    ensures Blamed(program, reports', x)
  {
    hide Own, Walk;
    var path :| BlamedBy(program, reports, x, path);
    var y := path[|path| - 1];
    OwnMore(Defs(program), reports, reports', program[y].e, program[y].node - 1);
    assert BlamedBy(program, reports', x, path);
  }

  lemma ExcusedMore(program: Program, reports: seq<Report>, reports': seq<Report>, e: Expr, id: int)
    requires Excused(program, reports, e, id) && More(reports, reports')
    ensures Excused(program, reports', e, id)
  {
    hide Own, Blamed, More;
    if Own(Defs(program), reports, e, id) {
      OwnMore(Defs(program), reports, reports', e, id);
    } else {
      var z :| z in Names(e) && Blamed(program, reports, z);
      BlamedMore(program, reports, reports', z);
    }
  }

  // ----- how a tree is told of, from its parts -----

  lemma ToldLit(defs: map<string, Expr>, reports: seq<Report>, n: int64, id: int)
    ensures Told(defs, reports, Lit(n), id)
  {
  }

  lemma ToldName(defs: map<string, Expr>, reports: seq<Report>, x: string, id: nat)
    requires x in defs || UndefinedSymbol(x, id) in reports
    ensures Told(defs, reports, Name(x), id)
  {
  }

  lemma ToldGroup(defs: map<string, Expr>, reports: seq<Report>, c: Expr, id: int)
    requires Told(defs, reports, c, id - 1)
    ensures Told(defs, reports, Group(c), id)
  {
  }

  /** Only the faults of an operation itself are left to tell. */
  lemma ToldParts(defs: map<string, Expr>, reports: seq<Report>, e: Expr, id: int)
    requires e.Bin? && Told(defs, reports, e.l, id - 1 - Size(e.r))
    requires Ends(defs, e.l, Bad) || Told(defs, reports, e.r, id - 1)
    requires forall r :: Fault(defs, e, id, r) ==> r in reports
    ensures Told(defs, reports, e, id)
  {
    hide Fault, Ends;
  }

  /** An operation on something bad has no fault of its own. */
  lemma NoFault(defs: map<string, Expr>, e: Expr, id: int)
    requires e.Bin? && (Ends(defs, e.l, Bad) || Ends(defs, e.r, Bad))
    ensures forall r :: !Fault(defs, e, id, r)
  {
    hide Ends;
    forall a, b
      ensures !Operands(defs, e, a, b)
    {
      if Operands(defs, e, a, b) {
        if Ends(defs, e.l, Bad) {
          EndsOnce(defs, e.l, a, Bad);
        } else {
          EndsOnce(defs, e.r, b, Bad);
        }
      }
    }
  }

  /** What an operation on a and b can have as its fault. */
  lemma OnlyFault(defs: map<string, Expr>, e: Expr, id: int, a: Value, b: Value, r: Report)
    requires Operands(defs, e, a, b) && Fault(defs, e, id, r)
    ensures if a.IsNumber() && b.IsNumber()
            then DoArith(e.op, a, b).Err? && r.Arithmetic? && r.at == id && r.op == e.op && r.error == DoArith(e.op, a, b).error
            else r.NotNumbers? && r.at == id
  {
    hide Ends;
    var c, d :| Operands(defs, e, c, d) && (r.NotNumbers? ==> !(c.IsNumber() && d.IsNumber())) &&
                (r.Arithmetic? ==> FailsOn(e, r.op, c, d, r.error));
    EndsOnce(defs, e.l, a, c);
    EndsOnce(defs, e.r, b, d);
  }

  // ----- how blame is passed on -----

  lemma OwnUp(defs: map<string, Expr>, reports: seq<Report>, e: Expr, id: int, g: Expr, j: int)
    requires Reached(defs, e, id, g, j) && Own(defs, reports, g, j)
    ensures Own(defs, reports, e, id)
  {
    hide Reached, Fault;
    var f, k, r :| Points(defs, reports, g, j, f, k, r);
    ReachedTrans(defs, e, id, g, j, f, k);
    assert Points(defs, reports, e, id, f, k, r);
  }

  lemma ExcusedUp(program: Program, reports: seq<Report>, e: Expr, id: int, g: Expr, j: int)
    requires Reached(Defs(program), e, id, g, j) && Excused(program, reports, g, j)
    ensures Excused(program, reports, e, id)
  {
    hide Own, Blamed, Reached;
    if Own(Defs(program), reports, g, j) {
      OwnUp(Defs(program), reports, e, id, g, j);
    } else {
      ReachedSubtree(Defs(program), e, id, g, j);
      SubtreeNames(g, e);
    }
  }

  /** An expression is excused by a report about its root. */
  lemma ExcusedHere(program: Program, reports: seq<Report>, e: Expr, id: int, r: Report)
    requires r in reports && (Fault(Defs(program), e, id, r) || (e.Name? && r == Recursive(e.x)))
    ensures Excused(program, reports, e, id)
  {
    assert Points(Defs(program), reports, e, id, e, id, r);
  }

  /** A definition that is excused passes the blame on to its name. */
  lemma BlamePassed(program: Program, reports: seq<Report>, x: string)
    requires x in program && Excused(program, reports, program[x].e, program[x].node - 1)
    ensures Blamed(program, reports, x)
  {
    hide Own;
    if Own(Defs(program), reports, program[x].e, program[x].node - 1) {
      assert BlamedBy(program, reports, x, [x]);
    } else {
      var z :| z in Names(program[x].e) && Blamed(program, reports, z);
      var path :| BlamedBy(program, reports, z, path);
      WalkLonger(Defs(program), x, path);
      assert BlamedBy(program, reports, x, [x] + path);
    }
  }

  lemma WalkLonger(defs: map<string, Expr>, x: string, path: seq<string>)
    requires x in defs && path != [] && path[0] in Names(defs[x]) && Walk(defs, path)
    ensures Walk(defs, [x] + path)
  {
  }
}
