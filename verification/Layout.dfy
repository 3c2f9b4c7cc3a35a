// Programs as lists of definitions: the arena that the parser makes of them, and what becomes of
// the analysis when the list is written in another order.
module Layout {
  import opened Analysis
  import opened Ast
  import opened Faults
  import opened Outcomes
  import opened Sequences

  datatype Definition = Definition(name: string, e: Expr)

  /** The nodes of a tree, from position lo on: operands first, and the root last. */
  function Lay(e: Expr, lo: nat): (nodes: seq<Node>)
    ensures nodes != []
  {
    match e
    case Lit(n) => [IntegerLit(n, false)]
    case Name(x) => [Ident(x, false)]
    case Group(c) => var t := Lay(c, lo); t + [Grouping(lo + |t| - 1, false)]
    case Bin(op, l, r) =>
      var t := Lay(l, lo);
      var u := Lay(r, lo + |t|);
      t + u + [Binary(op, lo + |t| - 1, lo + |t| + |u| - 1, false)]
  }

  lemma {:induction false} LayHolds(before: seq<Node>, e: Expr, after: seq<Node>)
    ensures var t := Lay(e, |before|);
      Holds(before + t + after, |before|, |before| + |t| - 1, e, true)
    decreases e, 1
  {
    if e.Group? {
      var inner := Lay(e.e, |before|);
      var root := Grouping(|before| + |inner| - 1, false);
      LayHolds(before, e.e, [root] + after);
      hide Holds;
      Pieces(before, inner, [], root, after);
      RootHolds(before + (inner + [root]) + after, |before|, 0, |before| + |inner|, e);
    } else if e.Bin? {
      LayHoldsBin(before, e, after);
    }
  }

  lemma LayBin(e: Expr, lo: nat)
    requires e.Bin?
    ensures var left := Lay(e.l, lo);
      var right := Lay(e.r, lo + |left|);
      Lay(e, lo) == left + right + [Binary(e.op, lo + |left| - 1, lo + |left| + |right| - 1, false)]
  {
  }

  lemma {:induction false} LayHoldsBin(before: seq<Node>, e: Expr, after: seq<Node>)
    requires e.Bin?
    ensures var t := Lay(e, |before|);
      Holds(before + t + after, |before|, |before| + |t| - 1, e, true)
    decreases e, 0
  {
    hide Holds, Lay;
    LayBin(e, |before|);
    var left := Lay(e.l, |before|);
    var right := Lay(e.r, |before| + |left|);
    var root := Binary(e.op, |before| + |left| - 1, |before| + |left| + |right| - 1, false);
    var t := left + right + [root];
    LayHolds(before, e.l, right + [root] + after);
    LayHolds(before + left, e.r, [root] + after);
    Pieces(before, left, right, root, after);
    RootHolds(before + t + after, |before|, |before| + |left| - 1, |before| + |t| - 1, e);
  }

  lemma Pieces(before: seq<Node>, left: seq<Node>, right: seq<Node>, root: Node, after: seq<Node>)
    ensures var all := before + (left + right + [root]) + after;
      && all == before + left + (right + [root] + after) == before + left + right + ([root] + after)
      && all[|before| + |left| + |right|] == root
    ensures right == [] ==> left + right + [root] == left + [root] && right + [root] + after == [root] + after
  {
  }

  /** A root above trees that hold makes a tree that holds. */
  lemma RootHolds(nodes: seq<Node>, lo: nat, l: nat, id: nat, e: Expr)
    requires e.Group? || e.Bin?
    requires lo < id < |nodes|
    requires e.Group? ==> nodes[id] == Grouping(id - 1, false) && Holds(nodes, lo, id - 1, e.e, true)
    requires e.Bin? ==>
               && lo <= l < id - 1 && nodes[id] == Binary(e.op, l, id - 1, false)
               && Holds(nodes, lo, l, e.l, true) && Holds(nodes, l + 1, id - 1, e.r, true)
    ensures Holds(nodes, lo, id, e, true)
  {
  }

  /** The arena of a program: for each definition its tree, and then its declaration. */
  function Arena(defs: seq<Definition>): seq<Node> {
    if defs == [] then []
    else
      var before, d := Arena(defs[..|defs| - 1]), defs[|defs| - 1];
      before + Declared(d, |before|)
  }

  function Declared(d: Definition, lo: nat): (nodes: seq<Node>)
    ensures |nodes| > 1
  {
    var t := Lay(d.e, lo);
    t + [VarDecl(d.name, lo + |t| - 1, false)]
  }

  function Decls(defs: seq<Definition>): (decls: seq<Decl>)
    ensures |decls| == |defs|
  {
    seq(|defs|, k requires 0 <= k < |defs| => DeclAt(defs, k))
  }

  function DeclAt(defs: seq<Definition>, k: nat): Decl
    requires k < |defs|
  {
    var before := Arena(defs[..k]);
    Decl(|before|, |before| + |Declared(defs[k], |before|)| - 1, defs[k].e)
  }

  function Roots(defs: seq<Definition>): (roots: seq<nat>)
    ensures |roots| == |defs|
  {
    seq(|defs|, k requires 0 <= k < |defs| => DeclAt(defs, k).node)
  }

  /** Later definitions are laid out behind earlier ones. */
  lemma {:induction false} ArenaAt(defs: seq<Definition>, k: nat)
    requires k < |defs|
    ensures var before := Arena(defs[..k]);
      before + Declared(defs[k], |before|) <= Arena(defs)
    decreases |defs|
  {
    var front := defs[..|defs| - 1];
    if k < |front| {
      ArenaAt(front, k);
      assert front[..k] == defs[..k];
    }
  }

  lemma DeclUntouched(defs: seq<Definition>, k: nat)
    requires k < |defs|
    ensures Untouched(Arena(defs), defs[k].name, DeclAt(defs, k), true)
  {
    hide Lay, Holds, Arena;
    ArenaAt(defs, k);
    var before, d := Arena(defs[..k]), defs[k];
    var t := Lay(d.e, |before|);
    var last := VarDecl(d.name, |before| + |t| - 1, false);
    assert Declared(d, |before|) == t + [last];
    var after := PrefixRest(before + (t + [last]), Arena(defs));
    TreeUntouched(before, t, d, last, after);
  }

  lemma PrefixRest(p: seq<Node>, all: seq<Node>) returns (after: seq<Node>)
    requires p <= all
    ensures all == p + after
  {
    after := all[|p|..];
  }

  lemma TreeUntouched(before: seq<Node>, t: seq<Node>, d: Definition, last: Node, after: seq<Node>)
    requires t == Lay(d.e, |before|) && last == VarDecl(d.name, |before| + |t| - 1, false)
    ensures Untouched(before + (t + [last]) + after, d.name, Decl(|before|, |before| + |t|, d.e), true)
  {
    hide Lay, Holds;
    LayHolds(before, d.e, [last] + after);
    Pieces(before, t, [], last, after);
    assert t + [] == t;
  }

  lemma DeclsApart(defs: seq<Definition>, k: nat, m: nat)
    requires k < m < |defs|
    ensures DeclAt(defs, k).node < DeclAt(defs, m).lo
  {
    hide Lay, Arena;
    ArenaAt(defs[..m], k);
    assert defs[..m][..k] == defs[..k] && defs[..m][k] == defs[k];
  }

  lemma At(defs: seq<Definition>, k: nat)
    requires k < |defs|
    ensures Decls(defs)[k] == DeclAt(defs, k) && Roots(defs)[k] == DeclAt(defs, k).node
    ensures Decls(defs)[k].e == defs[k].e && Decls(defs)[k].lo < Decls(defs)[k].node
  {
    hide Lay, Arena;
  }

  /** Every list of definitions is a program that the analysis can be run on. */
  lemma LayoutParsed(defs: seq<Definition>)
    ensures Parsed(Arena(defs), Roots(defs), Decls(defs))
    ensures forall k :: 0 <= k < |defs| ==> NameAt(Arena(defs), Roots(defs)[k]) == defs[k].name
  {
    hide Arena, Decls, Roots, DeclAt, Untouched;
    var nodes, roots, decls := Arena(defs), Roots(defs), Decls(defs);
    forall k | 0 <= k < |defs|
      ensures roots[k] == decls[k].node < |nodes| && nodes[roots[k]].VarDecl? && nodes[roots[k]].name == defs[k].name
      ensures Untouched(nodes, defs[k].name, decls[k], true)
    {
      At(defs, k);
      DeclUntouched(defs, k);
      UntouchedRoot(nodes, defs[k].name, decls[k]);
    }
    forall k, m | 0 <= k < m < |defs|
      ensures decls[k].node < decls[m].lo
    {
      At(defs, k);
      At(defs, m);
      DeclsApart(defs, k, m);
    }
  }

  lemma UntouchedRoot(nodes: seq<Node>, x: string, d: Decl)
    requires Untouched(nodes, x, d, true)
    ensures d.node < |nodes| && nodes[d.node].VarDecl? && nodes[d.node].name == x
  {
  }

  // ----- the order of the definitions -----

  ghost predicate Distinct(defs: seq<Definition>) {
    forall j, k :: 0 <= j < k < |defs| ==> defs[j].name != defs[k].name
  }

  /** The definitions by name are those of the list, and nothing else. */
  ghost predicate Lists(defs: seq<Definition>, byName: map<string, Expr>) {
    && (forall d :: d in defs ==> d.name in byName && byName[d.name] == d.e)
    && (forall x :: x in byName ==> exists d :: d in defs && d.name == x)
  }

  lemma NamesDistinct(defs: seq<Definition>)
    ensures DistinctNames(Arena(defs), Roots(defs)) <==> Distinct(defs)
  {
    hide Parsed, Arena, Roots, NameAt;
    LayoutParsed(defs);
    var nodes, roots := Arena(defs), Roots(defs);
    forall j, k | 0 <= j < k < |defs|
      ensures NameAt(nodes, roots[j]) == defs[j].name && NameAt(nodes, roots[k]) == defs[k].name
    {
    }
  }

  lemma ProgramLists(defs: seq<Definition>)
    requires Distinct(defs)
    ensures Lists(defs, Defs(ProgramOf(Arena(defs), Roots(defs), Decls(defs))))
  {
    hide Parsed, Arena, Roots, Decls, ProgramOf, NameAt, Distinct, DistinctNames;
    var nodes, roots, decls := Arena(defs), Roots(defs), Decls(defs);
    LayoutParsed(defs);
    NamesDistinct(defs);
    ProgramLooksUp(nodes, roots, decls);
    var byName := Defs(ProgramOf(nodes, roots, decls));
    forall d | d in defs
      ensures d.name in byName && byName[d.name] == d.e
    {
      var k :| 0 <= k < |defs| && defs[k] == d;
      assert NameAt(nodes, roots[k]) == d.name;
      At(defs, k);
    }
    forall x | x in byName
      ensures exists d :: d in defs && d.name == x
    {
      var k :| 0 <= k < |roots| && NameAt(nodes, roots[k]) == x;
      assert defs[k] in defs && defs[k].name == x;
    }
  }

  /** Definitions in another order have the same names, and are the same by name. */
  lemma PermutedAlike(defs: seq<Definition>, defs': seq<Definition>, byName: map<string, Expr>, byName': map<string, Expr>)
    requires multiset(defs) == multiset(defs') && Lists(defs, byName) && Lists(defs', byName')
    ensures byName == byName'
  {
    SameMembers(defs, defs');
    forall x | x in byName
      ensures x in byName' && byName'[x] == byName[x]
    {
      var d :| d in defs && d.name == x;
      assert d in defs';
    }
    forall x | x in byName'
      ensures x in byName
    {
      var d :| d in defs' && d.name == x;
      assert d in defs;
    }
    SameMaps(byName, byName');
  }

  lemma SameMembers(defs: seq<Definition>, defs': seq<Definition>)
    requires multiset(defs) == multiset(defs')
    ensures forall d :: d in defs <==> d in defs'
  {
    forall d
      ensures d in defs <==> d in defs'
    {
      assert d in defs <==> d in multiset(defs);
      assert d in defs' <==> d in multiset(defs');
    }
  }

  /** In any order, no name is defined twice. */
  lemma PermutedDistinct(defs: seq<Definition>, defs': seq<Definition>)
    requires multiset(defs) == multiset(defs') && Distinct(defs)
    ensures Distinct(defs')
  {
    SameMembers(defs, defs');
    forall j, k | 0 <= j < k < |defs'|
      ensures defs'[j].name != defs'[k].name
    {
      if defs'[j].name == defs'[k].name {
        SameName(defs, defs'[j], defs'[k]);
        Twice(defs', j, k);
        Once(defs, defs'[j]);
        assert false;
      }
    }
  }

  lemma SameName(defs: seq<Definition>, d: Definition, d': Definition)
    requires Distinct(defs) && d in defs && d' in defs && d.name == d'.name
    ensures d == d'
  {
    var j :| 0 <= j < |defs| && defs[j] == d;
    var k :| 0 <= k < |defs| && defs[k] == d';
    assert j == k;
  }

  lemma {:induction false} Once(defs: seq<Definition>, d: Definition)
    requires Distinct(defs)
    ensures multiset(defs)[d] <= 1
  {
    if defs != [] {
      var last := |defs| - 1;
      Once(defs[..last], d);
      assert defs == defs[..last] + [defs[last]];
      if defs[last] == d {
        assert d !in defs[..last];
      }
    }
  }

  lemma Twice(defs: seq<Definition>, j: nat, k: nat)
    requires j < k < |defs| && defs[j] == defs[k]
    ensures multiset(defs)[defs[j]] >= 2
  {
    assert defs == defs[..k] + [defs[k]] + defs[k + 1..];
    assert defs[..k][j] in multiset(defs[..k]);
  }

  /** Finished analyses of the same definitions agree on every number, also when they failed. */
  lemma SameNumbers(s: State, t: State, x: string)
    requires Meaningful(s) && Meaningful(t) && Defs(s.program) == Defs(t.program) && x in s.program
    ensures x in t.program && x in s.symbols && x in t.symbols
    ensures s.symbols[x].value.IsNumber() || t.symbols[x].value.IsNumber() ==> s.symbols[x].value == t.symbols[x].value
  {
    var defs := Defs(s.program);
    assert x in defs && x in Defs(t.program) && defs[x] == s.program[x].e == t.program[x].e;
    var v, w := s.symbols[x].value, t.symbols[x].value;
    if v.IsNumber() && w.IsNumber() {
      DenotesOnce(defs, defs[x], v, w);
    }
  }

  /** The same definitions in two orders: both are accepted or neither is, and either way every
      name has the same number in both or a number in neither. */
  method AnalyzeTwoOrders(defs: seq<Definition>, defs': seq<Definition>)
    returns (a: Analyzer, ok: bool, a': Analyzer, ok': bool)
    requires multiset(defs) == multiset(defs')
    ensures ok <==> ok'
    ensures ok <==> Distinct(defs) && Solvable(Defs(a.program))
    ensures Distinct(defs) ==> Lists(defs, Defs(a.program)) && Defs(a'.program) == Defs(a.program)
    ensures Distinct(defs) ==> forall x :: x in a.program ==> x in a.symbols && x in a'.symbols
    ensures Distinct(defs) ==> forall x :: x in a.program && (a.symbols[x].value.IsNumber() || a'.symbols[x].value.IsNumber()) ==>
              a.symbols[x].value == a'.symbols[x].value
  {
    hide Complete, Meaningful, Solvable, Solves, Distinct;
    LayoutParsed(defs);
    LayoutParsed(defs');
    NamesDistinct(defs);
    NamesDistinct(defs');
    if Distinct(defs) {
      PermutedDistinct(defs, defs');
      ProgramLists(defs);
      ProgramLists(defs');
    } else if Distinct(defs') {
      PermutedDistinct(defs', defs);
    }
    hide Parsed, Lists, DistinctNames, ProgramOf;
    a, ok := Analyze(Arena(defs), Roots(defs), Decls(defs));
    ghost var s := a.S();
    a', ok' := Analyze(Arena(defs'), Roots(defs'), Decls(defs'));
    ghost var t := a'.S();
    if Distinct(defs) {
      PermutedAlike(defs, defs', Defs(s.program), Defs(t.program));
      forall x | x in a.program
        ensures x in a.symbols && x in a'.symbols
        ensures a.symbols[x].value.IsNumber() || a'.symbols[x].value.IsNumber() ==> a.symbols[x].value == a'.symbols[x].value
      {
        SameNumbers(s, t, x);
      }
    }
  }
}
