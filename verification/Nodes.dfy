// The nodes that the parser of source/parse.c makes, and what they record of the tokens.
module Nodes {
  import opened Grammar
  import opened TokenStream
  import opened Wrappers

  // ----- abstract syntax -----

  /** struct haste_ast_node. The list of arguments is a sequence. */
  datatype Node =
    | LeafNode(token: Token)
    | GroupingNode(child: Node)
    | UnaryNode(op: Token, rhs: Node)
    | DistinctNode(child: Node)
    | CastNode(to: Option<Node>, expr: Node)
    | BinaryNode(op: Token, lhs: Node, rhs: Node)
    | AccessNode(lhs: Node, field: Token)
    | CallNode(callee: Node, args: seq<Node>)

  /** The node for a concrete tree: `cast[] e` is `cast e`, and commas are not recorded. */
  function Erase(e: Cst): Node {
    match e
    case Leaf(token) => LeafNode(token)
    case Paren(c) => GroupingNode(Erase(c))
    case Prefixed(op, c) => if op == Distinct then DistinctNode(Erase(c)) else UnaryNode(op, Erase(c))
    case CastBare(c) => CastNode(None, Erase(c))
    case CastEmpty(c) => CastNode(None, Erase(c))
    case CastTo(to, c) => CastNode(Some(Erase(to)), Erase(c))
    case Infixed(op, l, r) => BinaryNode(op, Erase(l), Erase(r))
    case Field(c, name) => AccessNode(Erase(c), name)
    case Call(c, args) => CallNode(Erase(c), EraseArgs(args))
  }

  function EraseArgs(args: Args): seq<Node> {
    match args
    case NoArgs => []
    case MoreArgs(arg, _, rest) => [Erase(arg)] + EraseArgs(rest)
  }

  /** The same tree without the brackets of `cast[]` and without trailing commas. */
  function Plain(e: Cst): Cst {
    match e
    case Leaf(_) => e
    case Paren(c) => Paren(Plain(c))
    case Prefixed(op, c) => Prefixed(op, Plain(c))
    case CastBare(c) => CastBare(Plain(c))
    case CastEmpty(c) => CastBare(Plain(c))
    case CastTo(to, c) => CastTo(Plain(to), Plain(c))
    case Infixed(op, l, r) => Infixed(op, Plain(l), Plain(r))
    case Field(c, name) => Field(Plain(c), name)
    case Call(c, args) => Call(Plain(c), PlainArgs(args))
  }

  function PlainArgs(args: Args): Args {
    match args
    case NoArgs => NoArgs
    case MoreArgs(arg, _, rest) => MoreArgs(Plain(arg), rest.MoreArgs?, PlainArgs(rest))
  }

  /** A node records everything about an expression but those brackets and commas. */
  lemma {:induction false} EraseForgets(d: Cst, e: Cst)
    requires Stratified(d) && Stratified(e)
    ensures Erase(d) == Erase(e) <==> Plain(d) == Plain(e)
    decreases d
  {
    match d
    case Leaf(_) =>
    case Paren(c) => if e.Paren? { EraseForgets(c, e.e); }
    case Prefixed(_, c) => if e.Prefixed? { EraseForgets(c, e.e); }
    case CastBare(c) => if e.CastBare? || e.CastEmpty? { EraseForgets(c, e.e); }
    case CastEmpty(c) => if e.CastBare? || e.CastEmpty? { EraseForgets(c, e.e); }
    case CastTo(to, c) => if e.CastTo? { EraseForgets(to, e.to); EraseForgets(c, e.e); }
    case Infixed(_, l, r) => if e.Infixed? { EraseForgets(l, e.l); EraseForgets(r, e.r); }
    case Field(c, _) => if e.Field? { EraseForgets(c, e.e); }
    case Call(c, args) => if e.Call? { EraseForgets(c, e.e); EraseForgetsArgs(args, e.args); }
  }

  lemma {:induction false} EraseForgetsArgs(a: Args, b: Args)
    requires StratifiedArgs(a) && StratifiedArgs(b)
    ensures EraseArgs(a) == EraseArgs(b) <==> PlainArgs(a) == PlainArgs(b)
    decreases a
  {
    if a.MoreArgs? && b.MoreArgs? {
      EraseForgets(a.arg, b.arg);
      EraseForgetsArgs(a.rest, b.rest);
      assert EraseArgs(a)[0] == Erase(a.arg) && EraseArgs(a)[1..] == EraseArgs(a.rest);
      assert EraseArgs(b)[0] == Erase(b.arg) && EraseArgs(b)[1..] == EraseArgs(b.rest);
    }
  }

  // ----- the tokens of a node -----

  /** The tokens a node stands for, from left to right. */
  function Listing(n: Node): (ts: seq<Token>)
    ensures ts != []
  {
    match n
    case LeafNode(token) => [token]
    case GroupingNode(c) => [OpenParen] + Listing(c) + [CloseParen]
    case UnaryNode(op, c) => [op] + Listing(c)
    case DistinctNode(c) => [Distinct] + Listing(c)
    case CastNode(None, c) => [Cast] + Listing(c)
    case CastNode(Some(to), c) => [Cast, OpenBracket] + Listing(to) + [CloseBracket] + Listing(c)
    case BinaryNode(op, lhs, rhs) => Listing(lhs) + [op] + Listing(rhs)
    case AccessNode(lhs, field) => Listing(lhs) + [Dot, field]
    case CallNode(callee, args) => Listing(callee) + [OpenParen] + ListingArgs(args)
  }

  function ListingArgs(args: seq<Node>): seq<Token> {
    if args == [] then [CloseParen]
    else Listing(args[0]) + (if |args| > 1 then [Comma] else []) + ListingArgs(args[1..])
  }

  /** The tokens without the brackets of `cast[]` and without a comma before a parenthesis. */
  function Tidy(ts: seq<Token>): seq<Token> {
    if ts == [] then []
    else if ts[0] == Cast && Starts(ts[1..], OpenBracket) && Starts(ts[2..], CloseBracket) then [Cast] + Tidy(ts[3..])
    else if ts[0] == Comma && Starts(ts[1..], CloseParen) then Tidy(ts[1..])
    else [ts[0]] + Tidy(ts[1..])
  }

  /** How tightly a node binds, as Stratum says it of a tree. */
  function Binding(n: Node): nat {
    match n
    case BinaryNode(op, _, _) => if op == Plus || op == Minus then 1 else 2
    case UnaryNode(_, _) => 4
    case DistinctNode(_) => 4
    case CastNode(_, _) => 4
    case _ => 5
  }

  /** Sums of products of operands, every operator associating to the left. */
  predicate Layered(n: Node) {
    match n
    case LeafNode(token) => IsLeaf(token)
    case GroupingNode(c) => Layered(c)
    case UnaryNode(op, c) => op in {Plus, Minus} && Layered(c) && Binding(c) >= 4
    case DistinctNode(c) => Layered(c) && Binding(c) >= 4
    case CastNode(None, c) => Layered(c) && Binding(c) >= 4
    case CastNode(Some(to), c) => Layered(to) && Layered(c) && Binding(c) >= 4
    case BinaryNode(op, lhs, rhs) =>
      && op in {Plus, Minus, Star, Slash} && Layered(lhs) && Layered(rhs)
      && Binding(lhs) >= Binding(n) && Binding(rhs) > Binding(n)
    case AccessNode(lhs, field) => field.Ident? && Layered(lhs) && Binding(lhs) == 5
    case CallNode(callee, args) => Layered(callee) && Binding(callee) == 5 && LayeredArgs(args)
  }

  predicate LayeredArgs(args: seq<Node>) {
    args == [] || (Layered(args[0]) && LayeredArgs(args[1..]))
  }

  /** The node of a tree lists the tree's tokens in their order, and keeps its shape. */
  lemma {:induction false} ListingErase(e: Cst)
    requires Stratified(e)
    ensures Listing(Erase(e)) == Flatten(Plain(e))
    ensures Layered(Erase(e)) && Binding(Erase(e)) == Stratum(e)
    decreases e
  {
    match e
    case Leaf(_) =>
    case Paren(c) => ListingErase(c);
    case Prefixed(_, c) => ListingErase(c);
    case CastBare(c) => ListingErase(c);
    case CastEmpty(c) => ListingErase(c);
    case CastTo(to, c) =>
      ListingErase(to);
      ListingErase(c);
    case Infixed(_, l, r) =>
      ListingErase(l);
      ListingErase(r);
    case Field(c, _) => ListingErase(c);
    case Call(c, args) =>
      ListingErase(c);
      ListingEraseArgs(args);
  }

  lemma {:induction false} ListingEraseArgs(args: Args)
    requires StratifiedArgs(args)
    ensures ListingArgs(EraseArgs(args)) == FlattenArgs(PlainArgs(args))
    ensures LayeredArgs(EraseArgs(args))
    decreases args
  {
    if args.MoreArgs? {
      ListingErase(args.arg);
      ListingEraseArgs(args.rest);
      assert EraseArgs(args)[0] == Erase(args.arg) && EraseArgs(args)[1..] == EraseArgs(args.rest);
      assert args.rest.MoreArgs? <==> |EraseArgs(args)| > 1;
    }
  }

  // ----- tidying the tokens of a tree -----

  /** A token that Tidy leaves alone, and whatever follows. */
  lemma TidyOne(t: Token, ts: seq<Token>)
    requires t == Cast ==> !(Starts(ts, OpenBracket) && Starts(ts[1..], CloseBracket))
    requires t == Comma ==> !Starts(ts, CloseParen)
    ensures Tidy([t] + ts) == [t] + Tidy(ts)
  {
    var all := [t] + ts;
    assert all[1..] == ts && (ts != [] ==> all[2..] == ts[1..]);
  }

  lemma TidyBrackets(ts: seq<Token>)
    ensures Tidy([Cast] + ([OpenBracket] + ([CloseBracket] + ts))) == [Cast] + Tidy(ts)
  {
    var all := [Cast] + ([OpenBracket] + ([CloseBracket] + ts));
    assert all[1..] == [OpenBracket] + ([CloseBracket] + ts) && all[2..] == [CloseBracket] + ts && all[3..] == ts;
  }

  lemma TidyComma(ts: seq<Token>)
    ensures Tidy([Comma] + ([CloseParen] + ts)) == [CloseParen] + Tidy(ts)
  {
    var all := [Comma] + ([CloseParen] + ts);
    assert all[1..] == [CloseParen] + ts;
    TidyOne(CloseParen, ts);
  }

  /** An expression does not start with a token that means something to the one before it. */
  lemma Front(e: Cst, rest: seq<Token>)
    requires Stratified(e)
    ensures !Starts(Flatten(e) + rest, OpenBracket) && !Starts(Flatten(e) + rest, CloseBracket)
    ensures !Starts(Flatten(e) + rest, CloseParen)
  {
    FirstToken(e);
    assert (Flatten(e) + rest)[0] == Flatten(e)[0];
  }

  lemma {:induction false} TidyFlatten(e: Cst, rest: seq<Token>)
    requires Stratified(e)
    ensures Tidy(Flatten(e) + rest) == Flatten(Plain(e)) + Tidy(rest)
    decreases e
  {
    hide Tidy, Flatten, FlattenArgs;
    FlattenSpread(e, rest);
    FlattenSpread(Plain(e), Tidy(rest));
    match e
    case Leaf(token) =>
      TidyOne(token, rest);
    case Paren(c) =>
      TidyFlatten(c, [CloseParen] + rest);
      TidyOne(OpenParen, Flatten(c) + ([CloseParen] + rest));
      TidyOne(CloseParen, rest);
    case Prefixed(op, c) =>
      TidyFlatten(c, rest);
      TidyOne(op, Flatten(c) + rest);
    case CastBare(c) =>
      TidyFlatten(c, rest);
      Front(c, rest);
      TidyOne(Cast, Flatten(c) + rest);
    case CastEmpty(c) =>
      TidyFlatten(c, rest);
      TidyBrackets(Flatten(c) + rest);
    case CastTo(to, c) =>
      TidyCast(to, c, rest);
    case Infixed(op, l, r) =>
      TidyFlatten(r, rest);
      TidyOne(op, Flatten(r) + rest);
      TidyFlatten(l, [op] + (Flatten(r) + rest));
    case Field(c, name) =>
      TidyOne(name, rest);
      TidyOne(Dot, [name] + rest);
      TidyFlatten(c, [Dot] + ([name] + rest));
    case Call(c, args) =>
      TidyFlattenArgs(args, rest);
      TidyOne(OpenParen, FlattenArgs(args) + rest);
      TidyFlatten(c, [OpenParen] + (FlattenArgs(args) + rest));
  }

  lemma {:induction false} TidyCast(to: Cst, c: Cst, rest: seq<Token>)
    requires Stratified(to) && Stratified(c)
    ensures Tidy(Spread(CastTo(to, c), rest)) == Spread(CastTo(Plain(to), Plain(c)), Tidy(rest))
    decreases CastTo(to, c), 0
  {
    hide Tidy, Flatten;
    var operand := Flatten(c) + rest;
    var target := Flatten(to) + ([CloseBracket] + operand);
    TidyFlatten(c, rest);
    TidyOne(CloseBracket, operand);
    TidyFlatten(to, [CloseBracket] + operand);
    Front(to, [CloseBracket] + operand);
    TidyOne(OpenBracket, target);
    Cons(OpenBracket, target);
    TidyOne(Cast, [OpenBracket] + target);
  }

  lemma {:induction false} TidyFlattenArgs(args: Args, rest: seq<Token>)
    requires StratifiedArgs(args)
    ensures Tidy(FlattenArgs(args) + rest) == FlattenArgs(PlainArgs(args)) + Tidy(rest)
    decreases args
  {
    hide Tidy;
    match args
    case NoArgs =>
      TidyOne(CloseParen, rest);
    case MoreArgs(arg, comma, more) =>
      var after := FlattenArgs(more) + rest;
      FlattenSpreadArgs(args, rest);
      FlattenSpreadArgs(PlainArgs(args), Tidy(rest));
      TidyFlattenArgs(more, rest);
      TidyFlatten(arg, if comma then [Comma] + after else after);
      if more.NoArgs? {
        assert after == [CloseParen] + rest;
        TidyComma(rest);
        TidyOne(CloseParen, rest);
      } else {
        FlattenSpreadArgs(more, rest);
        Front(more.arg, if more.comma then [Comma] + (FlattenArgs(more.rest) + rest) else FlattenArgs(more.rest) + rest);
        TidyOne(Comma, after);
      }
  }

  // ----- a node is found again from its tokens -----

  /** The tree without optional tokens that gives the node. */
  function Reify(n: Node): Cst {
    match n
    case LeafNode(token) => Leaf(token)
    case GroupingNode(c) => Paren(Reify(c))
    case UnaryNode(op, c) => Prefixed(op, Reify(c))
    case DistinctNode(c) => Prefixed(Distinct, Reify(c))
    case CastNode(None, c) => CastBare(Reify(c))
    case CastNode(Some(to), c) => CastTo(Reify(to), Reify(c))
    case BinaryNode(op, lhs, rhs) => Infixed(op, Reify(lhs), Reify(rhs))
    case AccessNode(lhs, field) => Field(Reify(lhs), field)
    case CallNode(callee, args) => Call(Reify(callee), ReifyArgs(args))
  }

  function ReifyArgs(args: seq<Node>): Args {
    if args == [] then NoArgs else MoreArgs(Reify(args[0]), |args| > 1, ReifyArgs(args[1..]))
  }

  lemma {:induction false} ReifyNode(n: Node)
    requires Layered(n)
    ensures Stratified(Reify(n)) && Stratum(Reify(n)) == Binding(n)
    ensures Flatten(Reify(n)) == Listing(n) && Erase(Reify(n)) == n
    decreases n
  {
    match n
    case LeafNode(_) =>
    case GroupingNode(c) => ReifyNode(c);
    case UnaryNode(_, c) => ReifyNode(c);
    case DistinctNode(c) => ReifyNode(c);
    case CastNode(None, c) => ReifyNode(c);
    case CastNode(Some(to), c) =>
      ReifyNode(to);
      ReifyNode(c);
    case BinaryNode(_, lhs, rhs) =>
      ReifyNode(lhs);
      ReifyNode(rhs);
    case AccessNode(lhs, _) => ReifyNode(lhs);
    case CallNode(callee, args) =>
      ReifyNode(callee);
      ReifyNodes(args);
  }

  lemma {:induction false} ReifyNodes(args: seq<Node>)
    requires LayeredArgs(args)
    ensures StratifiedArgs(ReifyArgs(args)) && FlattenArgs(ReifyArgs(args)) == ListingArgs(args)
    ensures EraseArgs(ReifyArgs(args)) == args
    decreases args
  {
    if args != [] {
      ReifyNode(args[0]);
      ReifyNodes(args[1..]);
      assert [args[0]] + args[1..] == args;
    }
  }

  /** No two layered nodes list the same tokens. */
  lemma ListingUnique(m: Node, n: Node)
    requires Layered(m) && Layered(n) && Listing(m) == Listing(n)
    ensures m == n
  {
    ReifyNode(m);
    ReifyNode(n);
    Unambiguous(Reify(m), Reify(n));
  }

  /** What is parsed from the front of ts: its node lists the tokens consumed, tidied. */
  lemma Consumed(ts: seq<Token>, e: Cst, rest: seq<Token>)
    requires Stratified(e) && ts == Flatten(e) + rest
    ensures |rest| < |ts| && ts[|ts| - |rest|..] == rest
    ensures Layered(Erase(e)) && Listing(Erase(e)) == Tidy(ts[..|ts| - |rest|])
  {
    hide Tidy, Flatten;
    assert ts[..|ts| - |rest|] == Flatten(e);
    ListingErase(e);
    TidyFlatten(e, []);
    TidyNone();
    assert Flatten(e) + [] == Flatten(e) && Flatten(Plain(e)) + [] == Flatten(Plain(e));
  }

  lemma TidyNone()
    ensures Tidy([]) == []
  {
  }
}
