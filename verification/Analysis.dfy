// Demand-driven analysis of global constants (source/analysis.c): declarations may come in any
// order, and looking up one that has not been analysed yet analyses it on the spot.
module Analysis {
  import opened Arith
  import opened Ast
  import opened Faults
  import opened Outcomes
  import opened Wrappers

  /** enum symbol_level, without the level that only locals have. */
  datatype Level = Undefined | Defined | Declared

  datatype Symbol = Symbol(level: Level, value: Value, node: nat, isConstant: bool)

  /** What find_local_first returns: no symbol, the recursion sentinel, or the symbol. */
  datatype Lookup = Missing | Sentinel | Found

  predicate Inside(d: Decl, i: int) {
    d.lo <= i <= d.node
  }

  /** The declarations occupy separate stretches of an arena of n nodes. */
  ghost predicate LaidOut(program: Program, n: nat) {
    && (forall x :: x in program ==> program[x].lo < program[x].node < n)
    && (forall x :: x in program ==> program[x].lo + Size(program[x].e) == program[x].node)
    && (forall x, y, i :: x in program && y in program && Inside(program[x], i) && Inside(program[y], i) ==> x == y)
  }

  /** The declaration is as the parser left it; `pending` says so of its root node. */
  ghost predicate Untouched(nodes: seq<Node>, x: string, d: Decl, pending: bool) {
    && d.lo < d.node < |nodes| && nodes[d.node] == VarDecl(x, d.node - 1, !pending)
    && Holds(nodes, d.lo, d.node - 1, d.e, true)
  }

  /** The tree e is a part, with its root at node id, of the definition of x, and looked at. */
  ghost predicate Asks(program: Program, x: string, e: Expr, id: nat) {
    x in program && Reached(Defs(program), program[x].e, program[x].node - 1, e, id)
  }

  /** The analyser's state: the arena, the symbol table and the reports, which are real, and two
      records of the run. `stack` holds the declarations being analysed, innermost last, and
      `started` those whose initialiser was evaluated, in order. */
  datatype State = State(program: Program, nodes: seq<Node>, symbols: map<string, Symbol>,
                         reports: seq<Report>, stack: seq<string>, started: seq<string>) {

    /** The values of the finished declarations. */
    ghost function Values(): map<string, Value> {
      map x | x in symbols && symbols[x].level == Declared :: symbols[x].value
    }

    /** The symbol table and the program have the same names; the names at level Defined are
        exactly those on the analysis stack, and each is used by the one it was reached from. */
    ghost predicate Table() {
      && symbols.Keys == program.Keys && LaidOut(program, |nodes|)
      && (forall x :: x in symbols ==> symbols[x].node == program[x].node)
      && (forall x :: x in symbols ==> (symbols[x].level == Defined <==> x in stack))
      && (forall i, j :: 0 <= i < j < |stack| ==> stack[i] != stack[j])
      && Walk(Defs(program), stack)
    }

    /** Every initialiser is evaluated at most once: when its name leaves level Undefined. */
    ghost predicate Once() {
      && (forall x :: x in symbols ==> (symbols[x].level != Undefined <==> x in started))
      && (forall i, j :: 0 <= i < j < |started| ==> started[i] != started[j])
      && (forall x :: x in started ==> x in symbols)
    }

    /** A finished name has the value that its definition comes to, and its initialiser was
        overwritten with it if it is a number. Every fault in the definition is reported, and when
        there is no number, blame for that leads to a report. */
    ghost predicate Finished(x: string) {
      && x in program && x in symbols && Ends(Defs(program), program[x].e, symbols[x].value)
      && Told(Defs(program), reports, program[x].e, program[x].node - 1)
      && (!symbols[x].value.IsNumber() ==> Blamed(program, reports, x))
      && program[x].lo < program[x].node < |nodes|
      && (symbols[x].value.IsNumber() ==> nodes[program[x].node - 1] == ValueNode(symbols[x].value))
    }

    ghost predicate Sound() {
      && (forall x :: x in symbols && symbols[x].level == Declared ==> Finished(x))
      && (forall r :: r in reports ==> Justified(program, r))
    }

    /** A name that nobody asked for yet is as the parser left it; any other is marked. */
    ghost predicate Unread() {
      && (forall x :: x in symbols && x in program && symbols[x].level == Undefined ==>
           Untouched(nodes, x, program[x], true))
      && (forall x :: x in symbols && x in program && symbols[x].level != Undefined ==>
           0 < program[x].node < |nodes| && nodes[program[x].node] == VarDecl(x, program[x].node - 1, true))
    }

    ghost predicate Inv() {
      Table() && Once() && Sound() && Unread()
    }

    ghost predicate Active(x: string) {
      stack != [] && stack[|stack| - 1] == x && x in program
    }

    /** The tree e at lo..id belongs to the declaration being analysed. */
    ghost predicate Ready(x: string, lo: nat, id: nat, e: Expr, pending: bool) {
      && Inv() && Active(x) && Holds(nodes, lo, id, e, pending)
      && program[x].lo <= lo && id < program[x].node
    }

    /** What analysing the tree e, whose root is node id, gives: the value that e comes to. All its
        faults are reported, and when there is no number, blame for that leads to a report. */
    ghost predicate Yields(e: Expr, id: nat, v: Value) {
      && Ends(Defs(program), e, v) && Told(Defs(program), reports, e, id)
      && (!v.IsNumber() ==> Excused(program, reports, e, id))
    }

    /** A finished name yields its value; one without a usable value is a runtime value to others. */
    lemma DeclaredYields(x: string, id: nat)
      requires Inv() && x in symbols && symbols[x].level == Declared
      ensures Yields(Name(x), id, Seen(symbols[x].value))
    {
      hide State.Unread, State.Once, State.Table, Ends, Told, Blamed;
      assert Finished(x);
      var defs := Defs(program);
      assert x in defs && defs[x] == program[x].e;
      EndsName(defs, x, symbols[x].value);
      ToldName(defs, reports, x, id);
    }

    /** What two operands yield decides what the operation yields, and which report it needs. */
    lemma BinYields(e: Expr, id: nat, a: Value, b: Value)
      requires e.Bin? && id > Size(e.r) && a != Bad && b != Bad
      requires Yields(e.l, id - 1 - Size(e.r), a) && Yields(e.r, id - 1, b)
      requires !(a.IsNumber() && b.IsNumber()) ==> NotNumbers(id) in reports
      requires a.IsNumber() && b.IsNumber() && DoArith(e.op, a, b).Err? ==>
                 Arithmetic(id, e.op, DoArith(e.op, a, b).error) in reports
      ensures Yields(e, id, Apply(e.op, a, b))
    {
      hide Ends, Told, Excused, Fault;
      var defs := Defs(program);
      EndsBin(defs, e, a, b);
      assert Operands(defs, e, a, b);
      forall r | Fault(defs, e, id, r)
        ensures r in reports
      {
        OnlyFault(defs, e, id, a, b, r);
      }
      ToldParts(defs, reports, e, id);
      if !Apply(e.op, a, b).IsNumber() {
        var r := FaultOf(e.op, id, a, b);
        OperationFaulty(e, id, a, b);
        ExcusedHere(program, reports, e, id, r);
      }
    }

    /** The report for an operation on a and b that gives no number. */
    static function FaultOf(op: Op, id: nat, a: Value, b: Value): Report
      requires !Apply(op, a, b).IsNumber()
    {
      if a.IsNumber() && b.IsNumber() then Arithmetic(id, op, DoArith(op, a, b).error) else NotNumbers(id)
    }

    lemma OperationFaulty(e: Expr, id: nat, a: Value, b: Value)
      requires e.Bin? && !Apply(e.op, a, b).IsNumber() && Operands(Defs(program), e, a, b)
      ensures Fault(Defs(program), e, id, FaultOf(e.op, id, a, b))
    {
      hide Operands;
    }

    /** ... which tells the truth when the operation is looked at. */
    lemma OperationJustified(x: string, e: Expr, id: nat, a: Value, b: Value)
      requires Asks(program, x, e, id) && e.Bin? && !Apply(e.op, a, b).IsNumber()
      requires Ends(Defs(program), e.l, a) && Ends(Defs(program), e.r, b) && a != Bad && b != Bad
      ensures Justified(program, FaultOf(e.op, id, a, b))
    {
      hide Reached, Ends;
      assert Operands(Defs(program), e, a, b);
      OperationFaulty(e, id, a, b);
      hide Fault;
      assert FaultIn(program, x, e, id, FaultOf(e.op, id, a, b));
    }

    /** An operation with a bad operand is bad. */
    lemma BadYields(e: Expr, id: nat, a: Value)
      requires e.Bin? && id > Size(e.r)
      requires Yields(e.l, id - 1 - Size(e.r), a) && (a == Bad || Yields(e.r, id - 1, Bad))
      ensures Yields(e, id, Bad)
    {
      hide Told, Excused, Fault, Ends;
      var defs := Defs(program);
      NoFault(defs, e, id);
      ToldParts(defs, reports, e, id);
      if a == Bad {
        LeftBad(defs, e);
        ExcusedUp(program, reports, e, id, e.l, id - 1 - Size(e.r));
      } else {
        EndsBin(defs, e, a, Bad);
        RightLookedAt(defs, e, id, a);
        ExcusedUp(program, reports, e, id, e.r, id - 1);
      }
    }

    static lemma LeftBad(defs: map<string, Expr>, e: Expr)
      requires e.Bin? && Ends(defs, e.l, Bad)
      ensures Ends(defs, e, Bad)
    {
      forall n: nat
        ensures Outcome(defs, n, e) == Bad
      {
        assert Outcome(defs, n, e.l) == Bad;
      }
    }

    static lemma RightLookedAt(defs: map<string, Expr>, e: Expr, id: int, a: Value)
      requires e.Bin? && Ends(defs, e.l, a) && a != Bad
      ensures Reached(defs, e, id, e.r, id - 1)
    {
      hide Ends;
      if Ends(defs, e.l, Bad) {
        EndsOnce(defs, e.l, a, Bad);
      }
    }

    lemma GroupYields(e: Expr, id: nat, v: Value)
      requires e.Group? && id > 0 && Yields(e.e, id - 1, v)
      ensures Yields(e, id, v)
    {
      hide Ends, Told, Excused;
      EndsGroup(Defs(program), e.e, v);
      ToldGroup(Defs(program), reports, e.e, id);
      if !v.IsNumber() {
        ExcusedUp(program, reports, e, id, e.e, id - 1);
      }
    }

    lemma MissingYields(x: string, id: nat)
      requires x !in program && UndefinedSymbol(x, id) in reports
      ensures Yields(Name(x), id, Uninit)
    {
      EndsUndefined(Defs(program), x);
      ToldName(Defs(program), reports, x, id);
      ExcusedHere(program, reports, Name(x), id, UndefinedSymbol(x, id));
      hide Ends, Told, Excused;
    }

    lemma RecursiveYields(x: string, id: nat)
      requires OnCycle(Defs(program), x) && Recursive(x) in reports
      ensures Yields(Name(x), id, Bad)
    {
      hide Ends, Told, Excused;
      CycleEndsBad(Defs(program), x);
      EndsName(Defs(program), x, Bad);
      ToldName(Defs(program), reports, x, id);
      ExcusedHere(program, reports, Name(x), id, Recursive(x));
    }

    /** The same once the report that an operation needs has been made. */
    lemma ReportedYields(t: State, e: Expr, id: nat, a: Value, b: Value)
      requires e.Bin? && id > Size(e.r) && a != Bad && b != Bad && !Apply(e.op, a, b).IsNumber()
      requires Yields(e.l, id - 1 - Size(e.r), a) && Yields(e.r, id - 1, b)
      requires Later(this, t, 0, -1) && FaultOf(e.op, id, a, b) in t.reports
      ensures t.Yields(e, id, Bad)
    {
      YieldsLater(this, t, 0, -1, e.l, id - 1 - Size(e.r), a);
      YieldsLater(this, t, 0, -1, e.r, id - 1, b);
      hide State.Yields;
      t.BinYields(e, id, a, b);
    }

    /** The first part of a tree is looked at when the tree is. */
    lemma PartAsked(x: string, e: Expr, id: nat)
      requires Asks(program, x, e, id)
      ensures e.Group? && id > 0 ==> Asks(program, x, e.e, id - 1)
      ensures e.Bin? && id > Size(e.r) ==> Asks(program, x, e.l, id - 1 - Size(e.r))
    {
      var defs, root := Defs(program), program[x].node - 1;
      if e.Group? {
        assert Reached(defs, e, id, e.e, id - 1);
        ReachedTrans(defs, program[x].e, root, e, id, e.e, id - 1);
      } else if e.Bin? {
        assert Reached(defs, e, id, e.l, id - 1 - Size(e.r));
        ReachedTrans(defs, program[x].e, root, e, id, e.l, id - 1 - Size(e.r));
      }
    }

    /** ... and the right operand when the left one is not bad. */
    lemma RightAsked(x: string, e: Expr, id: nat, a: Value)
      requires Asks(program, x, e, id) && e.Bin? && id > Size(e.r) && a != Bad && Yields(e.l, id - 1 - Size(e.r), a)
      ensures Asks(program, x, e.r, id - 1)
    {
      RightLookedAt(Defs(program), e, id, a);
      ReachedTrans(Defs(program), program[x].e, program[x].node - 1, e, id, e.r, id - 1);
    }

    function Set(id: nat, node: Node): State
      requires id < |nodes|
    {
      this.(nodes := nodes[id := node])
    }

    lemma SetUnread(x: string, id: nat, node: Node)
      requires Table() && Unread() && Active(x) && Inside(program[x], id) && id != program[x].node
      ensures id < |nodes| && Set(id, node).Unread()
    {
      var s := Set(id, node);
      assert x in stack && symbols[x].level == Defined;
      forall y | y in symbols && symbols[y].level == Undefined
        ensures Untouched(s.nodes, y, program[y], true)
      {
        var d := program[y];
        assert Untouched(nodes, y, d, true) && !Inside(d, id);
        HoldsFrame(nodes, s.nodes, d.lo, d.node - 1, d.e, true);
      }
      forall y | y in symbols && symbols[y].level != Undefined
        ensures program[y].node != id
      {
        assert Inside(program[y], program[y].node);
      }
    }

    lemma SetSound(x: string, id: nat, node: Node)
      requires Table() && Sound() && Active(x) && Inside(program[x], id)
      ensures id < |nodes| && Set(id, node).Sound()
    {
      var s := Set(id, node);
      assert x in stack && symbols[x].level == Defined;
      forall y | y in symbols && symbols[y].level == Declared
        ensures s.Finished(y)
      {
        assert Finished(y) && Inside(program[y], program[y].node - 1);
        FinishedSame(s, y);
      }
      hide State.Finished;
    }

    /** A name stays finished while its symbol and its initialiser stay as they are. */
    lemma FinishedSame(t: State, y: string)
      requires Finished(y) && t.program == program && More(reports, t.reports)
      requires y in t.symbols && t.symbols[y] == symbols[y] && |t.nodes| == |nodes|
      requires t.nodes[program[y].node - 1] == nodes[program[y].node - 1]
      ensures t.Finished(y)
    {
      hide Told, Blamed, Ends, More;
      ToldMore(Defs(program), reports, t.reports, program[y].e, program[y].node - 1);
      if !symbols[y].value.IsNumber() {
        BlamedMore(program, reports, t.reports, y);
      }
    }

    /** Overwriting a node of the declaration being analysed disturbs no other declaration. */
    lemma SetKeeps(x: string, id: nat, node: Node)
      requires Inv() && Active(x) && Inside(program[x], id) && id != program[x].node
      ensures id < |nodes| && Set(id, node).Inv()
    {
      SetUnread(x, id, node);
      SetSound(x, id, node);
      assert Walk(Defs(program), stack);
    }

    // ----- reports -----

    function Report(r: Report): State {
      this.(reports := reports + [r])
    }

    lemma ReportTable(r: Report)
      requires Table() && Once() && Unread()
      ensures Report(r).Table() && Report(r).Once() && Report(r).Unread()
    {
      hide Untouched;
      assert Walk(Defs(program), stack);
    }

    lemma ReportSound(r: Report)
      requires Sound() && Justified(program, r)
      ensures Report(r).Sound()
    {
      hide Justified;
      forall y | y in symbols && symbols[y].level == Declared
        ensures Report(r).Finished(y)
      {
        FinishedSame(Report(r), y);
      }
      hide State.Finished;
    }

    lemma ReportKeeps(r: Report)
      requires Inv() && Justified(program, r)
      ensures Report(r).Inv()
    {
      hide State.Table, State.Once, State.Sound, State.Unread;
      ReportTable(r);
      ReportSound(r);
    }

    /** A name looked up while it is itself being analysed lies on a cycle of definitions. */
    lemma RecursionIsCycle(x: string, top: string)
      requires Table() && Active(top) && x in Names(program[top].e) && x in symbols && symbols[x].level == Defined
      ensures OnCycle(Defs(program), x)
    {
      var i :| 0 <= i < |stack| && stack[i] == x;
      var path := stack[i..] + [x];
      assert Walk(Defs(program), path) by {
        forall k, m | 0 <= k < m < |path| && m == k + 1
          ensures path[m] in Names(Defs(program)[path[k]])
        {
          if m < |path| - 1 { assert stack[i + m] in Names(Defs(program)[stack[i + k]]); }
        }
      }
    }

    /** A name that nothing defines. */
    lemma MissingName(x: string, top: string, id: nat)
      requires Table() && Active(top) && Asks(program, top, Name(x), id) && x !in symbols
      ensures x !in program && Justified(program, UndefinedSymbol(x, id))
    {
      hide Reached;
      assert FaultIn(program, top, Name(x), id, UndefinedSymbol(x, id));
    }

    lemma Nameless(x: string, top: string, id: nat)
      requires Inv() && Active(top) && Asks(program, top, Name(x), id) && x !in symbols
      ensures x !in program && Justified(program, UndefinedSymbol(x, id))
    {
      MissingName(x, top, id);
    }

    // ----- a declaration begins, and ends -----

    /** What a lookup by the declaration in progress can meet. */
    lemma LookUp(x: string, top: string)
      requires Inv() && Active(top) && x in Names(program[top].e)
      ensures x in symbols && symbols[x].level == Defined ==> Justified(program, Recursive(x))
      ensures x in symbols && symbols[x].level == Undefined ==> Wanted(x)
      ensures x in symbols && symbols[x].level == Undefined ==>
                symbols[x].node < |nodes| && nodes[symbols[x].node] == VarDecl(x, symbols[x].node - 1, false)
      ensures Later(this, this, 0, -1)
    {
      if x in symbols && symbols[x].level == Defined {
        RecursionIsCycle(x, top);
      }
    }

    /** May be analysed now: nobody asked for x before, and the declaration in progress uses it. */
    ghost predicate Wanted(x: string) {
      && Inv() && x in program && symbols[x].level == Undefined
      && (stack != [] ==> stack[|stack| - 1] in program && x in Names(program[stack[|stack| - 1]].e))
    }

    /** analyze_node marks the declaration as analysed before anything else. */
    function Marked(x: string): State
      requires x in program && 0 < program[x].node < |nodes|
    {
      Set(program[x].node, VarDecl(x, program[x].node - 1, true))
    }

    /** A name's declaration is marked once its level has changed, and untouched before. */
    lemma Entry(x: string)
      requires Inv() && x in symbols && (symbols[x].level == Declared || Wanted(x))
      ensures x in program && symbols[x].node == program[x].node && 0 < program[x].node < |nodes|
      ensures symbols[x].level == Declared ==> nodes[program[x].node] == VarDecl(x, program[x].node - 1, true)
      ensures symbols[x].level == Declared ==> Later(this, this, 0, -1)
      ensures symbols[x].level != Declared ==> Untouched(nodes, x, program[x], true)
    {
      hide State.Once, State.Sound, Walk, Holds;
    }

    lemma WindowOpen(x: string)
      requires Wanted(x)
      ensures x in symbols && symbols[x].level == Undefined && symbols[x].node == program[x].node
      ensures Untouched(nodes, x, program[x], true) && Table()
    {
    }

    lemma MarkCount(x: string)
      requires x in program && Untouched(nodes, x, program[x], true)
      ensures PendingCount(Marked(x).nodes) < PendingCount(nodes)
    {
      var d := program[x];
      PendingUpdate(nodes, d.node, VarDecl(x, d.node - 1, true));
    }

    function Begun(x: string): State
      requires x in program && 0 < program[x].node < |nodes| && x in symbols
    {
      Marked(x).(symbols := symbols[x := symbols[x].(level := Defined, isConstant := true)],
                 stack := stack + [x], started := started + [x])
    }

    lemma BeginTable(x: string)
      requires Table() && x in program && symbols[x].level == Undefined
      requires stack != [] ==> stack[|stack| - 1] in program && x in Names(program[stack[|stack| - 1]].e)
      ensures Begun(x).Table() && Begun(x).Active(x)
    {
      assert x !in stack;
      var s := Begun(x);
      assert Walk(Defs(program), s.stack);
    }

    lemma BeginOthers(x: string, y: string)
      requires LaidOut(program, |nodes|) && x in program && y in program && x != y
      ensures program[y].node != program[x].node
      ensures Untouched(nodes, y, program[y], true) ==>
                Untouched(nodes[program[x].node := VarDecl(x, program[x].node - 1, true)], y, program[y], true)
    {
      var c, d := program[y], program[x];
      assert Inside(d, d.node) && Inside(c, c.node) && !Inside(c, d.node);
      if Untouched(nodes, y, c, true) {
        HoldsFrame(nodes, nodes[d.node := VarDecl(x, d.node - 1, true)], c.lo, c.node - 1, c.e, true);
      }
    }

    lemma BeginUnread(x: string)
      requires Table() && Unread() && x in program && symbols[x].level == Undefined
      ensures Begun(x).Unread()
      ensures Holds(Begun(x).nodes, program[x].lo, program[x].node - 1, program[x].e, true)
    {
      hide Walk, Holds, Untouched;
      var s, d := Begun(x), program[x];
      BeginHolds(x);
      forall y | y in symbols && y != x
        ensures program[y].node != d.node
        ensures Untouched(nodes, y, program[y], true) ==> Untouched(s.nodes, y, program[y], true)
      {
        BeginOthers(x, y);
      }
    }

    lemma BeginHolds(x: string)
      requires x in program && x in symbols && Untouched(nodes, x, program[x], true)
      ensures 0 < program[x].node < |nodes|
      ensures Holds(Begun(x).nodes, program[x].lo, program[x].node - 1, program[x].e, true)
    {
      var d := program[x];
      HoldsFrame(nodes, Begun(x).nodes, d.lo, d.node - 1, d.e, true);
    }

    lemma BeginSound(x: string)
      requires Table() && Sound() && x in program && symbols[x].level == Undefined
      ensures Begun(x).Sound()
    {
      hide Walk, Justified, State.Finished;
      forall y | y in symbols && symbols[y].level == Declared
        ensures Begun(x).Finished(y)
      {
        BeginFinished(x, y);
      }
    }

    lemma BeginFinished(x: string, y: string)
      requires LaidOut(program, |nodes|) && Finished(y) && x in program && x in symbols && x != y
      ensures Begun(x).Finished(y)
    {
      assert Inside(program[y], program[y].node - 1) && Inside(program[x], program[x].node);
      FinishedSame(Begun(x), y);
    }

    lemma BeginOnce(x: string)
      requires Table() && Once() && x in program && symbols[x].level == Undefined
      ensures Begun(x).Once()
    {
      assert x !in started;
    }

    lemma BeginCount(x: string)
      requires x in program && x in symbols && Untouched(nodes, x, program[x], true)
      ensures PendingCount(Begun(x).nodes) < PendingCount(nodes)
    {
      var d := program[x];
      PendingUpdate(nodes, d.node, VarDecl(x, d.node - 1, true));
    }

    lemma BeginKeeps(x: string)
      requires Wanted(x)
      ensures program[x].lo < program[x].node < |nodes|
      ensures Begun(x).Ready(x, program[x].lo, program[x].node - 1, program[x].e, true)
      ensures PendingCount(Begun(x).nodes) < PendingCount(nodes)
    {
      var d := program[x];
      BeginOnce(x);
      BeginTable(x);
      BeginUnread(x);
      BeginSound(x);
      BeginCount(x);
    }

    /** The declaration on top of the stack gets its value. */
    function Ended(x: string, value: Value): State
      requires x in symbols && stack != []
    {
      this.(symbols := symbols[x := symbols[x].(level := Declared, value := value)],
            stack := stack[..|stack| - 1])
    }

    static lemma WalkPrefix(defs: map<string, Expr>, path: seq<string>)
      requires Walk(defs, path) && path != []
      ensures Walk(defs, path[..|path| - 1])
    {
    }

    lemma EndTable(x: string, v: Value)
      requires Table() && Active(x)
      ensures Ended(x, v).Table() && x in stack
    {
      assert x in stack;
      EndStack(x);
      WalkPrefix(Defs(program), stack);
      hide Walk;
    }

    /** Without its last name the stack has the others, once each. */
    lemma EndStack(x: string)
      requires stack != [] && stack[|stack| - 1] == x
      requires forall i, j :: 0 <= i < j < |stack| ==> stack[i] != stack[j]
      ensures forall y :: y in stack[..|stack| - 1] <==> y in stack && y != x
    {
      forall y | y in stack && y != x
        ensures y in stack[..|stack| - 1]
      {
        var i :| 0 <= i < |stack| && stack[i] == y;
        assert stack[..|stack| - 1][i] == y;
      }
    }

    lemma EndUnread(x: string, v: Value)
      requires Table() && Once() && Unread() && Active(x)
      ensures Ended(x, v).Unread() && Ended(x, v).Once()
    {
      assert x in stack;
    }

    lemma EndSound(x: string, v: Value)
      requires Table() && Sound() && Active(x) && program[x].lo < program[x].node < |nodes|
      requires Yields(program[x].e, program[x].node - 1, v)
      requires v.IsNumber() ==> nodes[program[x].node - 1] == ValueNode(v)
      ensures Ended(x, v).Sound()
    {
      hide Justified, Told, Blamed, Excused, Ends, Walk;
      var t := Ended(x, v);
      if !v.IsNumber() {
        BlamePassed(program, reports, x);
      }
      assert t.Finished(x);
      forall y | y in symbols && symbols[y].level == Declared && y != x
        ensures t.Finished(y)
      {
        FinishedSame(t, y);
      }
      hide State.Finished;
    }

    lemma EndKeeps(x: string, v: Value)
      requires Inv() && Active(x) && program[x].lo < program[x].node < |nodes|
      requires Yields(program[x].e, program[x].node - 1, v)
      requires v.IsNumber() ==> nodes[program[x].node - 1] == ValueNode(v)
      ensures x in symbols && Ended(x, v).Inv()
    {
      hide State.Once, State.Sound, State.Unread, State.Yields;
      EndTable(x, v);
      EndUnread(x, v);
      EndSound(x, v);
    }
  }

  /** From s to t: finished names and names being analysed stay as they are, and so do their
      nodes outside lo..id; reports and evaluations are only added. */
  ghost predicate Later(s: State, t: State, lo: int, id: int) {
    && t.program == s.program && |t.nodes| == |s.nodes| && t.stack == s.stack
    && PendingCount(t.nodes) <= PendingCount(s.nodes)
    && s.symbols.Keys == s.program.Keys && SymbolsKept(s, t)
    && More(s.reports, t.reports)
    && NodesKept(s, t, lo, id)
  }

  ghost predicate SymbolsKept(s: State, t: State) {
    && s.symbols.Keys == t.symbols.Keys
    && (forall x :: x in s.symbols && s.symbols[x].level != Undefined ==> t.symbols[x] == s.symbols[x])
    && (forall x :: x in s.symbols && t.symbols[x].level == Undefined ==> t.symbols[x] == s.symbols[x])
  }

  ghost predicate NodesKept(s: State, t: State, lo: int, id: int)
    requires |t.nodes| == |s.nodes| && s.symbols.Keys == s.program.Keys
  {
    forall x, i :: x in s.symbols && s.symbols[x].level != Undefined && Inside(s.program[x], i) ==>
      0 <= i < |s.nodes| && !(lo <= i <= id) ==> t.nodes[i] == s.nodes[i]
  }

  /** lo..id has no node outside LO..ID. */
  predicate Within(lo: int, id: int, LO: int, ID: int) {
    id < lo || LO <= lo <= id <= ID
  }

  lemma LaterThen(s: State, t: State, lo: int, id: int, u: State, lo': int, id': int, LO: int, ID: int)
    requires Later(s, t, lo, id) && Later(t, u, lo', id') && Within(lo, id, LO, ID) && Within(lo', id', LO, ID)
    ensures Later(s, u, LO, ID)
  {
  }

  /** What a tree yields is not undone by what is analysed afterwards. */
  lemma YieldsLater(s: State, t: State, lo: int, id: int, e: Expr, k: nat, v: Value)
    requires Later(s, t, lo, id) && s.Yields(e, k, v)
    ensures t.Yields(e, k, v)
  {
    hide Ends, Told, Excused, More, NodesKept, SymbolsKept;
    ToldMore(Defs(s.program), s.reports, t.reports, e, k);
    if !v.IsNumber() {
      ExcusedMore(s.program, s.reports, t.reports, e, k);
    }
  }

  lemma ActiveDefined(s: State, x: string)
    requires s.Inv() && s.Active(x)
    ensures x in s.symbols && s.symbols[x].level == Defined
    ensures x in s.program && s.program[x].lo < s.program[x].node < |s.nodes|
  {
    hide State.Once, State.Sound, State.Unread;
    assert x in s.stack;
  }

  /** Trees of the declaration being analysed that lie outside lo..id are as they were. */
  lemma HoldsLater(s: State, t: State, lo: int, id: int, x: string, lo': nat, id': nat, e: Expr, pending: bool)
    requires s.Inv() && Later(s, t, lo, id) && s.Active(x) && Holds(s.nodes, lo', id', e, pending)
    requires s.program[x].lo <= lo' && id' < s.program[x].node && (id' < lo || id < lo')
    ensures Holds(t.nodes, lo', id', e, pending)
  {
    hide State.Inv;
    ActiveDefined(s, x);
    forall i | lo' <= i <= id'
      ensures t.nodes[i] == s.nodes[i]
    {
      assert Inside(s.program[x], i);
    }
    HoldsFrame(s.nodes, t.nodes, lo', id', e, pending);
  }

  /** The operands of a tree that is ready are ready as well. */
  lemma ChildReady(s: State, x: string, lo: nat, id: nat, e: Expr)
    requires s.Ready(x, lo, id, e, true)
    ensures e.Group? ==> s.Ready(x, lo, id - 1, e.e, true)
    ensures e.Bin? ==> s.Ready(x, lo, s.nodes[id].lhs, e.l, true)
    ensures e.Bin? ==> s.Ready(x, s.nodes[id].lhs + 1, id - 1, e.r, true)
  {
    hide State.Inv;
  }

  /** The root node of a tree, by the form of the tree. */
  lemma RootNode(nodes: seq<Node>, lo: nat, id: nat, e: Expr)
    requires Holds(nodes, lo, id, e, true)
    ensures lo <= id < |nodes|
    ensures e.Lit? ==> lo == id && nodes[id] == IntegerLit(e.n, false)
    ensures e.Name? ==> lo == id && nodes[id] == Ident(e.x, false)
    ensures e.Group? ==> lo < id && nodes[id] == Grouping(id - 1, false)
    ensures e.Bin? ==> nodes[id].Binary? && nodes[id] == Binary(e.op, nodes[id].lhs, id - 1, false) && lo <= nodes[id].lhs < id - 1
    ensures e.Bin? ==> nodes[id].lhs == id - 1 - Size(e.r)
  {
    HoldsSize(nodes, lo, id, e, true);
  }

  lemma ReadyLater(s: State, t: State, lo: int, id: int, x: string, lo': nat, id': nat, e: Expr)
    requires s.Ready(x, lo', id', e, true) && t.Inv() && Later(s, t, lo, id) && (id' < lo || id < lo')
    ensures t.Ready(x, lo', id', e, true)
  {
    hide State.Inv;
    HoldsLater(s, t, lo, id, x, lo', id', e, true);
  }

  /** Marking the root leaves the operands ready. */
  lemma ChildrenReady(s: State, t: State, x: string, lo: nat, id: nat, e: Expr)
    requires s.Ready(x, lo, id, e, true) && t.Inv() && Later(s, t, id, id)
    ensures e.Group? ==> t.Ready(x, lo, id - 1, e.e, true)
    ensures e.Bin? ==> t.Ready(x, lo, s.nodes[id].lhs, e.l, true)
    ensures e.Bin? ==> t.Ready(x, s.nodes[id].lhs + 1, id - 1, e.r, true)
  {
    hide State.Inv, Later, State.Ready, Holds;
    RootNodeReady(s, x, lo, id, e);
    ChildReady(s, x, lo, id, e);
    if e.Group? {
      ReadyLater(s, t, id, id, x, lo, id - 1, e.e);
    } else if e.Bin? {
      ReadyLater(s, t, id, id, x, lo, s.nodes[id].lhs, e.l);
      ReadyLater(s, t, id, id, x, s.nodes[id].lhs + 1, id - 1, e.r);
    }
  }

  lemma RootNodeReady(s: State, x: string, lo: nat, id: nat, e: Expr)
    requires s.Ready(x, lo, id, e, true)
    ensures id < |s.nodes| && (e.Group? ==> lo < id) && (e.Bin? ==> s.nodes[id].Binary? && lo <= s.nodes[id].lhs < id - 1)
  {
    RootNode(s.nodes, lo, id, e);
  }

  lemma LaterWider(s: State, t: State, lo: int, id: int, LO: int, ID: int)
    requires Later(s, t, lo, id) && Within(lo, id, LO, ID)
    ensures Later(s, t, LO, ID)
  {
  }

  /** From before a declaration to after it. */
  lemma LaterEnded(s: State, x: string, t: State, lo: int, id: int, v: Value)
    requires s.Table() && x in s.program && s.symbols[x].level == Undefined
    requires Later(s.Begun(x), t, lo, id) && PendingCount(s.Begun(x).nodes) <= PendingCount(s.nodes)
    requires Inside(s.program[x], lo) && Inside(s.program[x], id)
    requires t.stack != [] && x in t.symbols
    ensures Later(s, t.Ended(x, v), 0, -1)
  {
    hide Walk, PendingCount, NodesKept, SymbolsKept;
    var b, u := s.Begun(x), t.Ended(x, v);
    assert b.stack[..|b.stack| - 1] == s.stack;
    LaterNodes(s, x, t, lo, id);
    NodesOnly(s, t, u);
    EndedSymbols(s, x, t, v);
  }

  lemma EndedSymbols(s: State, x: string, t: State, v: Value)
    requires x in s.symbols && x in s.program && s.symbols[x].level == Undefined && 0 < s.program[x].node < |s.nodes|
    requires SymbolsKept(s.Begun(x), t) && x in t.symbols && t.stack != []
    ensures SymbolsKept(s, t.Ended(x, v))
  {
  }

  lemma NodesOnly(s: State, t: State, u: State)
    requires |t.nodes| == |s.nodes| && s.symbols.Keys == s.program.Keys && NodesKept(s, t, 0, -1) && u.nodes == t.nodes
    ensures NodesKept(s, u, 0, -1)
  {
  }

  lemma LaterNodes(s: State, x: string, t: State, lo: int, id: int)
    requires LaidOut(s.program, |s.nodes|) && x in s.program && x in s.symbols && s.symbols[x].level == Undefined
    requires s.symbols.Keys == s.program.Keys && |t.nodes| == |s.nodes|
    requires NodesKept(s.Begun(x), t, lo, id) && Inside(s.program[x], lo) && Inside(s.program[x], id)
    ensures NodesKept(s, t, 0, -1)
  {
    var b := s.Begun(x);
    forall y, i | y in s.symbols && s.symbols[y].level != Undefined && Inside(s.program[y], i) && 0 <= i < |s.nodes|
      ensures t.nodes[i] == s.nodes[i]
    {
      assert !Inside(s.program[x], i) && Inside(s.program[x], s.program[x].node);
      assert b.symbols[y] == s.symbols[y] && b.nodes[i] == s.nodes[i] && Inside(b.program[y], i);
    }
  }

  lemma StillActive(s: State, t: State, x: string, lo: int, id: int)
    requires s.Inv() && Later(s, t, lo, id) && s.Active(x)
    ensures t.Active(x) && |t.nodes| == |s.nodes| && t.program == s.program
    ensures x in t.symbols && t.symbols[x] == s.symbols[x]
    ensures PendingCount(t.nodes) <= PendingCount(s.nodes)
  {
    assert x in s.stack;
  }

  /** A declaration whose initialiser has been analysed may end. */
  lemma DeclDone(s: State, x: string, u: State, v: Value)
    requires x in s.program && x in s.symbols && s.symbols[x].level == Undefined
    requires s.program[x].lo < s.program[x].node < |s.nodes| && s.Table()
    requires s.Begun(x).Inv() && s.Begun(x).Active(x) && u.Inv()
    requires Later(s.Begun(x), u, s.program[x].lo, s.program[x].node - 1)
    requires PendingCount(s.Begun(x).nodes) <= PendingCount(s.nodes)
    requires u.Yields(s.program[x].e, s.program[x].node - 1, v)
    requires |u.nodes| == |s.nodes| && (v.IsNumber() ==> u.nodes[s.program[x].node - 1] == ValueNode(v))
    ensures x in u.symbols && u.stack != []
    ensures u.Ended(x, v).Inv() && Later(s, u.Ended(x, v), 0, -1)
  {
    hide State.Inv, State.Table, State.Yields, Later, PendingCount;
    StillActive(s.Begun(x), u, x, s.program[x].lo, s.program[x].node - 1);
    u.EndKeeps(x, v);
    LaterEnded(s, x, u, s.program[x].lo, s.program[x].node - 1, v);
  }

  /** Nothing is left to analyse. */
  ghost predicate Complete(s: State) {
    && s.Inv() && s.stack == []
    && forall x :: x in s.program ==> x in s.symbols && s.symbols[x].level == Declared && x in s.started
  }

  /** Every name has the number that its definition denotes, with the initialiser overwritten by
      it, or no number because its definition denotes none. */
  ghost predicate Meaningful(s: State) {
    forall x :: x in s.program ==>
      && x in s.symbols && Means(Defs(s.program), s.program[x].e, s.symbols[x].value)
      && 0 < s.program[x].node <= |s.nodes|
      && (s.symbols[x].value.IsNumber() ==> s.nodes[s.program[x].node - 1] == ValueNode(s.symbols[x].value))
  }

  lemma CompleteMeaningful(s: State)
    requires Complete(s)
    ensures Meaningful(s)
  {
    hide State.Once, State.Unread, Means, Ends, Told, Blamed;
    forall x | x in s.program
      ensures s.Finished(x) && Means(Defs(s.program), s.program[x].e, s.symbols[x].value)
    {
      assert s.Finished(x);
      EndsMeans(Defs(s.program), s.program[x].e, s.symbols[x].value);
    }
  }

  /** The reports are exactly the faults of the program, each at its own node, and some names on
      cycles; and from every name without a number a walk along the definitions leads to one that a
      report is about. */
  ghost predicate Thorough(s: State) {
    && (forall r :: r in s.reports && r.Recursive? ==> OnCycle(Defs(s.program), r.name))
    && (forall r :: r in s.reports && !r.Recursive? ==> IsFault(s.program, r))
    && (forall r :: IsFault(s.program, r) ==> r in s.reports)
    && (forall x :: x in s.program && x in s.symbols && !s.symbols[x].value.IsNumber() ==> Blamed(s.program, s.reports, x))
  }

  lemma CompleteThorough(s: State)
    requires Complete(s)
    ensures Thorough(s)
  {
    hide State.Once, State.Unread, Ends, Reached, Fault, Blamed;
    forall r | IsFault(s.program, r)
      ensures r in s.reports
    {
      var y, f, k :| FaultIn(s.program, y, f, k, r);
      assert s.Finished(y);
    }
    forall r | r in s.reports
      ensures Justified(s.program, r)
    {
    }
    forall x | x in s.program && x in s.symbols && !s.symbols[x].value.IsNumber()
      ensures Blamed(s.program, s.reports, x)
    {
      assert s.Finished(x);
    }
  }

  /** In particular, a constant defined by a name that nothing defines has its own report, whatever
      else is wrong. */
  lemma UndefinedReported(s: State, y: string, x: string)
    requires Thorough(s) && y in s.program && s.program[y].e == Name(x) && x !in s.program && s.program[y].node > 0
    ensures UndefinedSymbol(x, s.program[y].node - 1) in s.reports
  {
    var k := s.program[y].node - 1;
    assert Reached(Defs(s.program), s.program[y].e, k, Name(x), k);
    hide Reached;
    assert FaultIn(s.program, y, Name(x), k, UndefinedSymbol(x, k));
  }

  /** And nothing in a right operand is reported when the left one, without names, already fails. */
  lemma NothingPastFailure(s: State, y: string, r: Report, k: nat)
    requires Complete(s) && y in s.program && s.program[y].e.Bin?
    requires Names(s.program[y].e.l) == {} && !HasValue(Defs(s.program), s.program[y].e.l)
    requires s.program[y].node - 1 - Size(s.program[y].e.r) <= k < s.program[y].node - 1
    requires r in s.reports
    ensures r.Redefinition? || r.Recursive? || r.at != k
  {
    hide State.Once, State.Sound, State.Unread, Ends, Reached, Fault, Justified, HasValue;
    assert s.Sound();
    if !r.Redefinition? && !r.Recursive? && r.at == k {
      TrueReports(s, r);
      var z, f, m :| FaultIn(s.program, z, f, m, r);
      FaultAt(Defs(s.program), f, m, r);
      ReachedSubtree(Defs(s.program), s.program[z].e, s.program[z].node - 1, f, m);
      assert Inside(s.program[z], k) && Inside(s.program[y], k);
      ClosedEndsBad(Defs(s.program), s.program[y].e.l);
      LeftEndsIt(Defs(s.program), s.program[y].e, s.program[y].node - 1, f, k);
    }
  }

  lemma TrueReports(s: State, r: Report)
    requires s.Sound() && r in s.reports && !r.Recursive?
    ensures IsFault(s.program, r)
  {
  }

  lemma FaultAt(defs: map<string, Expr>, f: Expr, k: int, r: Report)
    requires Fault(defs, f, k, r)
    ensures !r.Redefinition? && !r.Recursive? && r.at == k
  {
  }

  lemma LeftEndsIt(defs: map<string, Expr>, e: Expr, id: int, f: Expr, k: int)
    requires e.Bin? && Ends(defs, e.l, Bad) && id - Size(e.r) <= k < id
    ensures !Reached(defs, e, id, f, k)
  {
    hide Ends;
    if Reached(defs, e.l, id - 1 - Size(e.r), f, k) {
      ReachedSubtree(defs, e.l, id - 1 - Size(e.r), f, k);
    }
  }

  /** Nothing was reported exactly when the definitions have a solution, and then the values are it. */
  lemma CompleteSolves(s: State)
    requires Complete(s)
    ensures s.reports == [] <==> Solvable(Defs(s.program))
    ensures s.reports == [] ==> Solves(Defs(s.program), s.Values())
  {
    hide State.Once, State.Unread, Solvable, Solves, Justified, Blamed, Told, Ends;
    if s.reports == [] {
      AllNumbers(s);
      ValuesSolve(Defs(s.program), s.Values());
      SolvableIffValues(Defs(s.program));
    } else {
      assert s.reports[0] in s.reports;
      JustifiedUnsolvable(s.program, s.reports[0]);
    }
  }

  lemma AllNumbers(s: State)
    requires Complete(s) && s.reports == []
    ensures s.Values().Keys == Defs(s.program).Keys
    ensures forall x :: x in Defs(s.program) ==> Denotes(Defs(s.program), Defs(s.program)[x], s.Values()[x])
    ensures forall x :: x in Defs(s.program) ==> HasValue(Defs(s.program), Defs(s.program)[x])
  {
    hide State.Once, State.Unread, State.Table, Ends, Told;
    forall x | x in s.program
      ensures s.Finished(x) && s.symbols[x].value.IsNumber() && Denotes(Defs(s.program), s.program[x].e, s.symbols[x].value)
    {
      assert s.Finished(x);
      NobodyBlamed(s.program, x);
      EndsMeans(Defs(s.program), s.program[x].e, s.symbols[x].value);
    }
  }

  lemma NobodyBlamed(program: Program, x: string)
    ensures !Blamed(program, [], x)
  {
    hide Reached, Fault, Walk;
  }

  lemma RootReady(s: State, x: string)
    requires s.Inv() && s.stack == [] && x in s.symbols
    ensures s.symbols[x].level == Declared || s.Wanted(x)
    ensures x in s.program && s.symbols[x].node == s.program[x].node
  {
  }

  lemma RootsDone(s: State)
    requires s.Inv() && s.stack == []
    requires forall x :: x in s.program ==> x in s.symbols && s.symbols[x].level == Declared
    ensures Complete(s)
  {
  }

  lemma LaterRoot(s: State, t: State, x: string)
    requires Later(s, t, 0, -1) && x in s.symbols
    ensures x in t.symbols && (s.symbols[x].level == Declared ==> t.symbols[x].level == Declared)
    ensures t.stack == s.stack && t.program == s.program
  {
  }

  // ----- the program as a list of declarations -----

  /** The declarations in source order, as the parser left them. */
  ghost predicate Parsed(nodes: seq<Node>, roots: seq<nat>, decls: seq<Decl>) {
    && |decls| == |roots|
    && (forall k :: 0 <= k < |roots| ==> roots[k] == decls[k].node < |nodes| && nodes[roots[k]].VarDecl?)
    && (forall k :: 0 <= k < |roots| ==> Untouched(nodes, nodes[roots[k]].name, decls[k], true))
    && (forall k, m, i :: 0 <= k < |decls| && 0 <= m < |decls| && Inside(decls[k], i) && Inside(decls[m], i) ==> k == m)
  }

  function NameAt(nodes: seq<Node>, root: nat): string {
    if root < |nodes| && nodes[root].VarDecl? then nodes[root].name else ""
  }

  ghost predicate DistinctNames(nodes: seq<Node>, roots: seq<nat>) {
    forall k, m :: 0 <= k < m < |roots| ==> NameAt(nodes, roots[k]) != NameAt(nodes, roots[m])
  }

  /** A declaration before the one at k has the same name. */
  ghost predicate Repeats(nodes: seq<Node>, roots: seq<nat>, k: int) {
    0 <= k < |roots| && exists j :: 0 <= j < k && NameAt(nodes, roots[j]) == NameAt(nodes, roots[k])
  }

  /** A second declaration of a name. */
  ghost predicate IsRepeat(nodes: seq<Node>, roots: seq<nat>, r: Report) {
    exists k :: Repeats(nodes, roots, k) && r == Redefinition(NameAt(nodes, roots[k]), roots[k])
  }

  /** The declarations by name. */
  ghost function ProgramOf(nodes: seq<Node>, roots: seq<nat>, decls: seq<Decl>): Program
    requires |decls| == |roots|
  {
    if roots == [] then map[]
    else
      var n := |roots| - 1;
      ProgramOf(nodes, roots[..n], decls[..n])[NameAt(nodes, roots[n]) := decls[n]]
  }

  lemma {:induction false} ProgramNames(nodes: seq<Node>, roots: seq<nat>, decls: seq<Decl>, x: string)
    requires |decls| == |roots| && x in ProgramOf(nodes, roots, decls)
    ensures exists k :: 0 <= k < |roots| && NameAt(nodes, roots[k]) == x
  {
    var n := |roots| - 1;
    if x == NameAt(nodes, roots[n]) {
    } else {
      ProgramNames(nodes, roots[..n], decls[..n], x);
      var k :| 0 <= k < n && NameAt(nodes, roots[..n][k]) == x;
      assert NameAt(nodes, roots[k]) == x;
    }
  }

  lemma {:induction false} ProgramAt(nodes: seq<Node>, roots: seq<nat>, decls: seq<Decl>, k: nat)
    requires |decls| == |roots| && DistinctNames(nodes, roots) && k < |roots|
    ensures NameAt(nodes, roots[k]) in ProgramOf(nodes, roots, decls)
    ensures ProgramOf(nodes, roots, decls)[NameAt(nodes, roots[k])] == decls[k]
  {
    var n := |roots| - 1;
    if k < n {
      assert DistinctNames(nodes, roots[..n]);
      ProgramAt(nodes, roots[..n], decls[..n], k);
      assert roots[..n][k] == roots[k] && decls[..n][k] == decls[k];
      assert NameAt(nodes, roots[k]) != NameAt(nodes, roots[n]);
    }
  }

  lemma ProgramLooksUp(nodes: seq<Node>, roots: seq<nat>, decls: seq<Decl>)
    requires |decls| == |roots| && DistinctNames(nodes, roots)
    ensures var p := ProgramOf(nodes, roots, decls);
      && (forall k :: 0 <= k < |roots| ==> NameAt(nodes, roots[k]) in p && p[NameAt(nodes, roots[k])] == decls[k])
      && (forall x :: x in p ==> exists k :: 0 <= k < |roots| && NameAt(nodes, roots[k]) == x)
  {
    forall k | 0 <= k < |roots|
      ensures NameAt(nodes, roots[k]) in ProgramOf(nodes, roots, decls)
      ensures ProgramOf(nodes, roots, decls)[NameAt(nodes, roots[k])] == decls[k]
    {
      ProgramAt(nodes, roots, decls, k);
    }
    forall x | x in ProgramOf(nodes, roots, decls)
      ensures exists k :: 0 <= k < |roots| && NameAt(nodes, roots[k]) == x
    {
      ProgramNames(nodes, roots, decls, x);
    }
  }

  lemma ProgramUntouched(nodes: seq<Node>, roots: seq<nat>, decls: seq<Decl>, x: string)
    requires Parsed(nodes, roots, decls) && DistinctNames(nodes, roots) && x in ProgramOf(nodes, roots, decls)
    ensures var d := ProgramOf(nodes, roots, decls)[x];
      d.lo < d.node < |nodes| && Untouched(nodes, x, d, true) && d.lo + Size(d.e) == d.node
  {
    hide Holds, ProgramOf;
    ProgramLooksUp(nodes, roots, decls);
    var k :| 0 <= k < |roots| && NameAt(nodes, roots[k]) == x;
    assert Untouched(nodes, nodes[roots[k]].name, decls[k], true);
    HoldsSize(nodes, decls[k].lo, decls[k].node - 1, decls[k].e, true);
  }

  lemma ProgramApart(nodes: seq<Node>, roots: seq<nat>, decls: seq<Decl>, x: string, y: string, i: int)
    requires Parsed(nodes, roots, decls) && DistinctNames(nodes, roots)
    requires x in ProgramOf(nodes, roots, decls) && y in ProgramOf(nodes, roots, decls)
    requires Inside(ProgramOf(nodes, roots, decls)[x], i) && Inside(ProgramOf(nodes, roots, decls)[y], i)
    ensures x == y
  {
    hide Holds, Untouched, ProgramOf;
    ProgramLooksUp(nodes, roots, decls);
    var k :| 0 <= k < |roots| && NameAt(nodes, roots[k]) == x;
    var m :| 0 <= m < |roots| && NameAt(nodes, roots[m]) == y;
    assert Inside(decls[k], i) && Inside(decls[m], i);
  }

  /** The state that prepare_scope leaves. */
  lemma Prepared(s: State, roots: seq<nat>, decls: seq<Decl>)
    requires Parsed(s.nodes, roots, decls) && DistinctNames(s.nodes, roots)
    requires s.program == ProgramOf(s.nodes, roots, decls)
    requires s.symbols.Keys == s.program.Keys
    requires forall x :: x in s.symbols ==> s.symbols[x].level == Undefined && s.symbols[x].node == s.program[x].node
    requires s.reports == [] && s.stack == [] && s.started == []
    ensures s.Inv()
  {
    hide Parsed, DistinctNames, ProgramOf, Untouched;
    forall x | x in s.program
      ensures s.program[x].lo < s.program[x].node < |s.nodes| && Untouched(s.nodes, x, s.program[x], true)
      ensures s.program[x].lo + Size(s.program[x].e) == s.program[x].node
    {
      ProgramUntouched(s.nodes, roots, decls, x);
    }
    forall x, y, i | x in s.program && y in s.program && Inside(s.program[x], i) && Inside(s.program[y], i)
      ensures x == y
    {
      ProgramApart(s.nodes, roots, decls, x, y, i);
    }
  }

  class Analyzer {
    ghost const program: Program
    var nodes: seq<Node>
    var symbols: map<string, Symbol>
    var reports: seq<Report>
    ghost var stack: seq<string>
    ghost var started: seq<string>

    ghost function S(): State
      reads this
    {
      State(program, nodes, symbols, reports, stack, started)
    }

    /** node_into_value, and any other write to a node of the declaration being analysed. */
    method Overwrite(id: nat, node: Node, ghost top: string)
      requires S().Inv() && S().Active(top) && Inside(program[top], id) && id != program[top].node
      requires id < |nodes| && (Pending(node) ==> Pending(nodes[id]))
      modifies `nodes
      ensures S().Inv() && S() == old(S()).Set(id, node) && Later(old(S()), S(), id, id)
      ensures PendingCount(nodes) + (if old(Pending(nodes[id])) then 1 else 0) ==
              old(PendingCount(nodes)) + if Pending(node) then 1 else 0
    {
      S().SetKeeps(top, id, node);
      PendingUpdate(nodes, id, node);
      nodes := nodes[id := node];
    }

    method AddReport(r: Report)
      requires S().Inv() && Justified(program, r)
      modifies `reports
      ensures S().Inv() && reports == old(reports) + [r] && Later(old(S()), S(), 0, -1)
    {
      S().ReportKeeps(r);
      reports := reports + [r];
    }

    /** Between the mark on a declaration and its level: analyze_var_decl looks its own name up
        there, and that lookup finds the declaration marked. */
    ghost predicate Window(x: string)
      reads this
    {
      && x in symbols && symbols[x].level == Undefined
      && symbols[x].node < |nodes| && nodes[symbols[x].node].VarDecl? && nodes[symbols[x].node].analyzed
    }

    /** The declaration `top`, being analysed, asks for a name it uses. */
    ghost predicate Asked(x: string, top: string)
      reads this
    {
      S().Inv() && S().Active(top) && x in Names(program[top].e)
    }

    /** find_local_first, asked for by the declaration `top`. */
    method FindLocalFirst(x: string, ghost top: string) returns (r: Lookup)
      requires Window(x) || Asked(x, top)
      modifies this
      ensures old(Window(x)) ==> S() == old(S())
      ensures old(Asked(x, top)) ==> S().Inv() && Later(old(S()), S(), 0, -1)
      ensures old(Asked(x, top)) ==> S().Active(top) && |nodes| == old(|nodes|)
      ensures old(Asked(x, top)) && r == Missing ==> S() == old(S()) && x !in symbols
      ensures old(Asked(x, top)) && r == Sentinel ==> Recursive(x) in reports && OnCycle(Defs(program), x)
      ensures old(Asked(x, top)) && r == Found ==> x in symbols && symbols[x].level == Declared
      decreases PendingCount(nodes), 1
    {
      hide State.Inv, State.Wanted, Later;
      if Asked(x, top) {
        S().LookUp(x, top);
      }
      if x !in symbols {
        return Missing;
      }
      match symbols[x].level
      case Defined =>
        AddReport(Recursive(x));
        return Sentinel;
      case Undefined =>
        ghost var s := S();
        AnalyzeTop(symbols[x].node, x);
        if old(Asked(x, top)) {
          StillActive(s, S(), top, 0, -1);
        }
        return Found;
      case Declared =>
        return Found;
    }

    /** analyze_node on a declaration. */
    method AnalyzeTop(id: nat, ghost x: string)
      requires x in symbols && symbols[x].node == id
      requires Window(x) || (S().Inv() && (symbols[x].level == Declared || S().Wanted(x)))
      modifies this
      ensures old(Window(x)) ==> S() == old(S())
      ensures !old(Window(x)) ==> S().Inv() && Later(old(S()), S(), 0, -1)
      ensures !old(Window(x)) ==> x in symbols && symbols[x].level == Declared
      decreases PendingCount(nodes), 0
    {
      hide State.Inv, State.Wanted, Later;
      ghost var s := S();
      if !Window(x) {
        s.Entry(x);
      }
      if nodes[id].ValueNode? || nodes[id].analyzed {
        return;
      }
      s.MarkCount(x);
      nodes := nodes[id := Analysed(nodes[id])];
      AnalyzeVarDecl(id, s);
    }

    /** The first lines of analyze_var_decl: from here on the name may not be used. */
    method Begin(id: nat, ghost s: State)
      requires id < |nodes| && nodes[id].VarDecl?
      requires s.Wanted(nodes[id].name) && s.program[nodes[id].name].node == id
      requires S() == s.Marked(nodes[id].name)
      modifies this
      ensures nodes == old(nodes) && S() == s.Begun(nodes[id].name)
      ensures var d := program[nodes[id].name];
        && d.lo < d.node == id < |s.nodes|
        && S().Ready(nodes[id].name, d.lo, d.node - 1, d.e, true)
      ensures PendingCount(nodes) < PendingCount(s.nodes)
      decreases PendingCount(nodes), 2
    {
      hide State.Inv, State.Wanted, State.Table, Later, PendingCount;
      var x := nodes[id].name;
      s.WindowOpen(x);
      var _ := FindLocalFirst(x, x);
      s.BeginKeeps(x);
      symbols := symbols[x := symbols[x].(level := Defined, isConstant := true)];
      stack, started := stack + [x], started + [x];
    }

    /** analyze_var_decl, on a declaration without a type: the initialiser's type is taken. */
    method AnalyzeVarDecl(id: nat, ghost s: State)
      requires id < |nodes| && nodes[id].VarDecl?
      requires s.Wanted(nodes[id].name) && s.program[nodes[id].name].node == id
      requires S() == s.Marked(nodes[id].name)
      modifies this
      ensures S().Inv() && Later(s, S(), 0, -1)
      ensures old(nodes[id].name) in symbols && symbols[old(nodes[id].name)].level == Declared
      decreases PendingCount(nodes), 3
    {
      hide State.Inv, State.Wanted, State.Table, Later, Holds, PendingCount;
      var x := nodes[id].name;
      var init := nodes[id].init;
      s.WindowOpen(x);
      Begin(id, s);
      ghost var begun, lo, e := S(), program[x].lo, program[x].e;
      var value := AnalyzeNode(init, lo, e, x);
      StillActive(begun, S(), x, lo, init);
      if value != Bad && !value.Runtime? {
        ghost var t := S();
        Overwrite(init, ValueNode(value), x);
        LaterThen(begun, t, lo, init, S(), init, init, lo, init);
        YieldsLater(t, S(), init, init, e, init, value);
      }
      DeclDone(s, x, S(), value);
      End(x, value);
    }

    /** The last lines of analyze_var_decl, and emit_error_symbol when the value is bad. */
    method End(x: string, value: Value)
      requires x in symbols && stack != []
      modifies `symbols, `stack
      ensures S() == old(S()).Ended(x, value)
    {
      symbols := symbols[x := symbols[x].(level := Declared, value := value)];
      stack := stack[..|stack| - 1];
    }

    /** analyze_node on an expression: marks the node, then does what its kind asks for. */
    method AnalyzeNode(id: nat, ghost lo: nat, ghost e: Expr, ghost top: string) returns (v: Value)
      requires S().Ready(top, lo, id, e, true) && Asks(program, top, e, id)
      modifies this
      ensures S().Inv() && Later(old(S()), S(), lo, id) && S().Yields(e, id, v)
      decreases PendingCount(nodes), 1
    {
      hide State.Inv, Later, PendingCount, Holds, Asks, State.Yields;
      ghost var s := S();
      RootNode(nodes, lo, id, e);
      Mark(id, lo, e, top);
      match nodes[id]
      case IntegerLit(n, _) =>
        v := AnalyzeIntegerLit(id, n, top, s);
      case Ident(x, _) =>
        v := AnalyzeIdent(id, x, top, s);
      case Grouping(child, _) =>
        v := AnalyzeGrouping(id, child, lo, e, top, s);
      case Binary(op, l, r, _) =>
        ghost var t := S();
        v := AnalyzeBinary(id, op, l, r, lo, e, top);
        LaterThen(s, t, id, id, S(), lo, id, lo, id);
    }

    /** The mark on the node; the operands are still to be analysed. */
    method Mark(id: nat, ghost lo: nat, ghost e: Expr, ghost top: string)
      requires S().Ready(top, lo, id, e, true) && Asks(program, top, e, id)
      modifies `nodes
      ensures S().Inv() && S().Active(top) && Later(old(S()), S(), id, id) && PendingCount(nodes) < old(PendingCount(nodes))
      ensures nodes == old(nodes)[id := Analysed(old(nodes)[id])] && S() == old(S()).Set(id, nodes[id])
      ensures e.Name? ==> Asked(e.x, top)
      ensures e.Group? ==> S().Ready(top, lo, id - 1, e.e, true)
      ensures e.Bin? ==> S().Ready(top, lo, old(nodes)[id].lhs, e.l, true)
      ensures e.Bin? ==> S().Ready(top, old(nodes)[id].lhs + 1, id - 1, e.r, true)
      ensures Asks(program, top, e, id)
    {
      hide State.Inv, Later, PendingCount, Holds;
      ghost var s := S();
      RootNode(nodes, lo, id, e);
      Overwrite(id, Analysed(nodes[id]), top);
      ReachedSubtree(Defs(program), program[top].e, program[top].node - 1, e, id);
      SubtreeNames(e, program[top].e);
      ChildrenReady(s, S(), top, lo, id, e);
    }

    /** analyze_integer_lit. */
    method AnalyzeIntegerLit(id: nat, n: int64, ghost top: string, ghost s: State) returns (v: Value)
      requires S().Inv() && S().Active(top) && Inside(program[top], id) && id != program[top].node && id < |nodes|
      requires Later(s, S(), id, id)
      modifies `nodes
      ensures S().Inv() && Later(s, S(), id, id) && S().Yields(Lit(n), id, v)
    {
      hide State.Inv, Later, PendingCount;
      ghost var t := S();
      v := if n == 0 then Zero else Scalar(n);
      Overwrite(id, ValueNode(v), top);
      LaterThen(s, t, id, id, S(), id, id, id, id);
      EndsLit(Defs(program), n);
      ToldLit(Defs(program), reports, n, id);
      hide Ends, Told;
    }

    /** analyze_grouping. */
    method AnalyzeGrouping(id: nat, child: nat, ghost lo: nat, ghost e: Expr, ghost top: string, ghost s: State) returns (v: Value)
      requires e.Group? && lo <= child == id - 1 && S().Ready(top, lo, child, e.e, true) && Asks(program, top, e, id)
      requires Later(s, S(), id, id)
      modifies this
      ensures S().Inv() && Later(s, S(), lo, id) && S().Yields(e, id, v)
      decreases PendingCount(nodes), 2
    {
      hide State.Inv, Later, PendingCount, Holds;
      ghost var t := S();
      t.PartAsked(top, e, id);
      v := AnalyzeNode(child, lo, e.e, top);
      LaterThen(s, t, id, id, S(), lo, child, lo, id);
      S().GroupYields(e, id, v);
      hide State.Yields;
    }

    /** analyze_ident. */
    method AnalyzeIdent(id: nat, x: string, ghost top: string, ghost s: State) returns (v: Value)
      requires Asked(x, top) && Asks(program, top, Name(x), id)
      requires Inside(program[top], id) && id != program[top].node && id < |nodes|
      requires Later(s, S(), id, id)
      modifies this
      ensures S().Inv() && Later(s, S(), id, id) && S().Yields(Name(x), id, v)
      decreases PendingCount(nodes), 2
    {
      hide State.Inv, Later;
      ghost var t := S();
      var symbol := FindLocalFirst(x, top);
      ghost var u := S();
      LaterThen(s, t, id, id, u, 0, -1, id, id);
      match symbol
      case Missing =>
        u.Nameless(x, top, id);
        AddReport(UndefinedSymbol(x, id));
        LaterThen(s, u, id, id, S(), 0, -1, id, id);
        v := Uninit;
        S().MissingYields(x, id);
      case Sentinel =>
        v := Bad;
        Overwrite(id, ValueNode(v), top);
        LaterThen(s, u, id, id, S(), id, id, id, id);
        S().RecursiveYields(x, id);
      case Found =>
        v := symbols[x].value;
        u.DeclaredYields(x, id);
        if v.Uninit? || v.Runtime? {
          v := Runtime;
        } else {
          Overwrite(id, ValueNode(v), top);
          LaterThen(s, u, id, id, S(), id, id, id, id);
          YieldsLater(u, S(), id, id, Name(x), id, v);
        }
    }

    /** analyze_binary. */
    method AnalyzeBinary(id: nat, op: Op, l: nat, r: nat, ghost lo: nat, ghost e: Expr, ghost top: string) returns (v: Value)
      requires e.Bin? && e.op == op && lo <= l < r && l == id - 1 - Size(e.r) && r == id - 1
      requires S().Ready(top, lo, l, e.l, true) && S().Ready(top, l + 1, r, e.r, true)
      requires Inside(program[top], id) && id != program[top].node && id < |nodes|
      requires Asks(program, top, e, id)
      modifies this
      ensures S().Inv() && Later(old(S()), S(), lo, id) && S().Yields(e, id, v)
      decreases PendingCount(nodes), 2
    {
      hide State.Inv, Later, Holds, Asks, State.Yields;
      ghost var s := S();
      s.PartAsked(top, e, id);
      var a := AnalyzeNode(l, lo, e.l, top);
      ghost var t := S();
      StillActive(s, t, top, lo, l);
      LaterWider(s, t, lo, l, lo, id);
      if a == Bad {
        t.BadYields(e, id, Bad);
        return Bad;
      }
      t.RightAsked(top, e, id, a);
      ReadyLater(s, t, lo, l, top, l + 1, r, e.r);
      var b := AnalyzeNode(r, l + 1, e.r, top);
      ghost var u := S();
      StillActive(t, u, top, l + 1, r);
      LaterThen(s, t, lo, l, u, l + 1, r, lo, id);
      YieldsLater(t, u, l + 1, r, e.l, l, a);
      if b == Bad {
        u.BadYields(e, id, a);
        return Bad;
      }
      v := ResolveBinary(id, op, a, b, e, top);
      LaterThen(s, u, lo, id, S(), id, id, lo, id);
    }

    /** The rest of analyze_binary, with resolve_binary_op: both operands have been analysed. */
    method ResolveBinary(id: nat, op: Op, a: Value, b: Value, ghost e: Expr, ghost top: string) returns (v: Value)
      requires S().Inv() && S().Active(top) && Inside(program[top], id) && id != program[top].node && id < |nodes|
      requires e.Bin? && e.op == op && id > Size(e.r) && a != Bad && b != Bad
      requires S().Yields(e.l, id - 1 - Size(e.r), a) && S().Yields(e.r, id - 1, b) && Asks(program, top, e, id)
      modifies `nodes, `reports
      ensures S().Inv() && Later(old(S()), S(), id, id) && S().Yields(e, id, v)
    {
      hide State.Inv, Later, Asks, Justified;
      ghost var u := S();
      if !Apply(op, a, b).IsNumber() {
        u.OperationJustified(top, e, id, a, b);
      }
      hide State.Yields;
      if !a.IsNumber() || !b.IsNumber() {
        AddReport(NotNumbers(id));
        u.ReportedYields(S(), e, id, a, b);
        LaterWider(u, S(), 0, -1, id, id);
        return Bad;
      }
      match DoArith(op, a, b)
      case Err(error) =>
        AddReport(Arithmetic(id, op, error));
        u.ReportedYields(S(), e, id, a, b);
        LaterWider(u, S(), 0, -1, id, id);
        return Bad;
      case Ok(value) =>
        u.BinYields(e, id, a, b);
        Overwrite(id, ValueNode(value), top);
        YieldsLater(u, S(), id, id, e, id, value);
        return value;
    }

    /** analyze_node on a top-level declaration, at the outermost level. */
    method AnalyzeRoot(id: nat, ghost x: string)
      requires S().Inv() && stack == [] && x in symbols && symbols[x].node == id
      modifies this
      ensures S().Inv() && Later(old(S()), S(), 0, -1) && x in symbols && symbols[x].level == Declared
    {
      RootReady(S(), x);
      AnalyzeTop(id, x);
    }

    constructor (nodes: seq<Node>, ghost program: Program)
      ensures this.nodes == nodes && this.program == program
      ensures symbols == map[] && reports == [] && stack == [] && started == []
    {
      this.nodes, this.program := nodes, program;
      symbols, reports, stack, started := map[], [], [], [];
    }

    /** prepare_scope: every declared name gets a symbol at level Undefined; a name declared twice
        is reported. */
    method PrepareScope(roots: seq<nat>) returns (ok: bool)
      requires forall k :: 0 <= k < |roots| ==> roots[k] < |nodes| && nodes[roots[k]].VarDecl?
      requires symbols == map[] && reports == []
      modifies `symbols, `reports
      ensures ok == DistinctNames(nodes, roots)
      ensures symbols.Keys == set k | 0 <= k < |roots| :: NameAt(nodes, roots[k])
      ensures ok ==> reports == []
      ensures forall r :: r in reports <==> IsRepeat(nodes, roots, r)
      ensures ok ==> forall k :: 0 <= k < |roots| ==>
                symbols[NameAt(nodes, roots[k])] == Symbol(Undefined, Uninit, roots[k], false)
    {
      ok := true;
      for n := 0 to |roots|
        invariant ok == DistinctNames(nodes, roots[..n]) && (ok ==> reports == [])
        invariant symbols.Keys == set k | 0 <= k < n :: NameAt(nodes, roots[k])
        invariant forall r :: r in reports <==> IsRepeat(nodes, roots[..n], r)
        invariant ok ==> forall k :: 0 <= k < n ==>
                    symbols[NameAt(nodes, roots[k])] == Symbol(Undefined, Uninit, roots[k], false)
      {
        var name := nodes[roots[n]].name;
        assert NameAt(nodes, roots[n]) == name;
        assert roots[..n + 1][..n] == roots[..n];
        NewName(nodes, roots, n);
        NewRepeat(nodes, roots, n);
        if name in symbols {
          reports := reports + [Redefinition(name, roots[n])];
          ok := false;
        } else {
          symbols := symbols[name := Symbol(Undefined, Uninit, roots[n], false)];
        }
      }
      assert roots[..|roots|] == roots;
    }
  }

  lemma NewName(nodes: seq<Node>, roots: seq<nat>, n: nat)
    requires n < |roots|
    ensures DistinctNames(nodes, roots[..n + 1]) <==>
            DistinctNames(nodes, roots[..n]) && NameAt(nodes, roots[n]) !in set k | 0 <= k < n :: NameAt(nodes, roots[k])
  {
    var a, b := roots[..n], roots[..n + 1];
    forall k | 0 <= k < n
      ensures a[k] == b[k] == roots[k]
    {
    }
    if DistinctNames(nodes, b) {
      forall k, m | 0 <= k < m < n
        ensures NameAt(nodes, a[k]) != NameAt(nodes, a[m])
      {
        assert NameAt(nodes, b[k]) != NameAt(nodes, b[m]);
      }
      forall k | 0 <= k < n
        ensures NameAt(nodes, roots[k]) != NameAt(nodes, roots[n])
      {
        assert NameAt(nodes, b[k]) != NameAt(nodes, b[n]);
      }
    }
  }

  /** One more declaration brings at most one more repeat. */
  lemma NewRepeat(nodes: seq<Node>, roots: seq<nat>, n: nat)
    requires n < |roots|
    ensures forall r :: IsRepeat(nodes, roots[..n + 1], r) <==>
              || IsRepeat(nodes, roots[..n], r)
              || (NameAt(nodes, roots[n]) in (set k | 0 <= k < n :: NameAt(nodes, roots[k])) &&
                  r == Redefinition(NameAt(nodes, roots[n]), roots[n]))
  {
    hide NameAt;
    var a, b := roots[..n], roots[..n + 1];
    forall k | 0 <= k < n
      ensures a[k] == b[k] == roots[k] && (Repeats(nodes, a, k) <==> Repeats(nodes, b, k))
    {
      assert forall j :: 0 <= j < k ==> a[j] == b[j];
    }
    assert b[n] == roots[n] && forall j :: 0 <= j < n ==> b[j] == roots[j];
    assert Repeats(nodes, b, n) <==> NameAt(nodes, roots[n]) in set k | 0 <= k < n :: NameAt(nodes, roots[k]);
    hide Repeats;
    forall r
      ensures IsRepeat(nodes, b, r) <==>
              IsRepeat(nodes, a, r) || (Repeats(nodes, b, n) && r == Redefinition(NameAt(nodes, roots[n]), roots[n]))
    {
      RepeatOr(nodes, roots, n, r);
    }
  }

  lemma RepeatOr(nodes: seq<Node>, roots: seq<nat>, n: nat, r: Report)
    requires n < |roots|
    requires forall k :: 0 <= k < n ==> (Repeats(nodes, roots[..n], k) <==> Repeats(nodes, roots[..n + 1], k))
    ensures IsRepeat(nodes, roots[..n + 1], r) <==>
            || IsRepeat(nodes, roots[..n], r)
            || (Repeats(nodes, roots[..n + 1], n) && r == Redefinition(NameAt(nodes, roots[n]), roots[n]))
  {
    hide NameAt;
    var a, b := roots[..n], roots[..n + 1];
    if IsRepeat(nodes, b, r) {
      var k :| Repeats(nodes, b, k) && r == Redefinition(NameAt(nodes, b[k]), b[k]);
      if k < n {
        assert Repeats(nodes, a, k);
      }
    }
    if IsRepeat(nodes, a, r) {
      var k :| Repeats(nodes, a, k) && r == Redefinition(NameAt(nodes, a[k]), a[k]);
      assert Repeats(nodes, b, k) && b[k] == a[k];
    }
  }

  /** The loop of analyze over the top-level declarations. */
  method AnalyzeRoots(a: Analyzer, roots: seq<nat>, ghost nodes: seq<Node>)
    requires a.S().Inv() && a.stack == []
    requires forall k :: 0 <= k < |roots| ==>
               NameAt(nodes, roots[k]) in a.symbols && NameAt(nodes, roots[k]) in a.program &&
               a.program[NameAt(nodes, roots[k])].node == roots[k]
    requires forall x :: x in a.program ==> exists k :: 0 <= k < |roots| && NameAt(nodes, roots[k]) == x
    modifies a
    ensures Complete(a.S())
  {
    hide State.Inv, State.Wanted, Later;
    for n := 0 to |roots|
      invariant a.S().Inv() && a.stack == []
      invariant forall k :: 0 <= k < |roots| ==> NameAt(nodes, roots[k]) in a.symbols
      invariant forall k :: 0 <= k < n ==> a.symbols[NameAt(nodes, roots[k])].level == Declared
    {
      ghost var s, x := a.S(), NameAt(nodes, roots[n]);
      RootReady(s, x);
      a.AnalyzeRoot(roots[n], x);
      forall k | 0 <= k < |roots|
        ensures NameAt(nodes, roots[k]) in a.symbols
        ensures k < n ==> a.symbols[NameAt(nodes, roots[k])].level == Declared
      {
        LaterRoot(s, a.S(), NameAt(nodes, roots[k]));
      }
      LaterRoot(s, a.S(), x);
    }
    RootsDone(a.S());
  }

  /** analyze. The program is accepted exactly when its names are declared once and its
      definitions, read as equations, have a solution in an order without cycles; then every name
      has its value in that solution, whatever the order of the declarations. Accepted or not,
      every name that has a number has the one its definition denotes, every other name denotes
      none, every initialiser is evaluated exactly once, every symbol ends at level Declared, and
      the reports are exactly the faults of the program, with the cycles that were met. */
  method Analyze(nodes: seq<Node>, roots: seq<nat>, ghost decls: seq<Decl>) returns (a: Analyzer, ok: bool)
    requires Parsed(nodes, roots, decls)
    ensures fresh(a) && a.program == ProgramOf(nodes, roots, decls)
    ensures ok <==> DistinctNames(nodes, roots) && Solvable(Defs(a.program))
    ensures ok ==> Solves(Defs(a.program), a.S().Values())
    ensures DistinctNames(nodes, roots) ==> Complete(a.S()) && Meaningful(a.S()) && Thorough(a.S())
    ensures !DistinctNames(nodes, roots) ==> forall r :: r in a.reports <==> IsRepeat(nodes, roots, r)
  {
    hide Complete, Meaningful, Thorough, IsRepeat, Solvable, State.Values;
    ghost var program := ProgramOf(nodes, roots, decls);
    a := new Analyzer(nodes, program);
    ok := a.PrepareScope(roots);
    if ok {
      ProgramLooksUp(nodes, roots, decls);
      Prepared(a.S(), roots, decls);
      AnalyzeRoots(a, roots, nodes);
      CompleteMeaningful(a.S());
      CompleteThorough(a.S());
      CompleteSolves(a.S());
      ok := a.reports == [];
    }
  }
}
