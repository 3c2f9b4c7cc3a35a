// The grammar of expressions, and precedence climbing as source/parse.c does it. The climbing
// accepts exactly the strings of one stratified grammar, and finds the tree of the grammar.
module Grammar {
  import opened TokenStream
  import opened Wrappers

  // ----- precedences and rules -----

  const PREC_NONE: nat := 0
  const PREC_TERM: nat := 1    // + -
  const PREC_FACTOR: nat := 2  // * /
  const PREC_ACCESS: nat := 3
  const PREC_UNARY: nat := 4
  const PREC_PRIMARY: nat := 5

  datatype Prefix = NoPrefix | LeafRule | GroupingRule | UnaryRule | DistinctRule | CastRule | AutoStructRule

  datatype Infix = NoInfix | BinaryRule | CallRule | FieldRule

  /** struct parser_rule; no operator is right associative. */
  datatype Rule = Rule(prefix: Prefix, infix: Infix, precedence: nat, rightAssoc: bool)

  function GetRule(t: Token): Rule {
    match t
    case OpenParen => Rule(GroupingRule, CallRule, PREC_PRIMARY, false)
    case Plus => Rule(UnaryRule, BinaryRule, PREC_TERM, false)
    case Minus => Rule(UnaryRule, BinaryRule, PREC_TERM, false)
    case Star => Rule(NoPrefix, BinaryRule, PREC_FACTOR, false)
    case Slash => Rule(NoPrefix, BinaryRule, PREC_FACTOR, false)
    case Int(_) => Rule(LeafRule, NoInfix, PREC_PRIMARY, false)
    case Float(_) => Rule(LeafRule, NoInfix, PREC_PRIMARY, false)
    case Str(_) => Rule(LeafRule, NoInfix, PREC_PRIMARY, false)
    case Ident(_) => Rule(LeafRule, NoInfix, PREC_PRIMARY, false)
    case Primitive(_) => Rule(LeafRule, NoInfix, PREC_PRIMARY, false)
    case Distinct => Rule(DistinctRule, NoInfix, PREC_UNARY, false)
    case Cast => Rule(CastRule, NoInfix, PREC_UNARY, false)
    case Dot => Rule(AutoStructRule, FieldRule, PREC_PRIMARY, false)
    case _ => Rule(NoPrefix, NoInfix, PREC_NONE, false)
  }

  // ----- concrete syntax -----

  /** A tree with everything that was written: `cast e`, `cast[] e` and `cast[T] e` differ, and
      an argument may be followed by a comma. */
  datatype Cst =
    | Leaf(token: Token)
    | Paren(e: Cst)
    | Prefixed(op: Token, e: Cst)
    | CastBare(e: Cst)
    | CastEmpty(e: Cst)
    | CastTo(to: Cst, e: Cst)
    | Infixed(op: Token, l: Cst, r: Cst)
    | Field(e: Cst, name: Token)
    | Call(e: Cst, args: Args)

  datatype Args = NoArgs | MoreArgs(arg: Cst, comma: bool, rest: Args)

  function Flatten(e: Cst): (ts: seq<Token>)
    ensures ts != []
  {
    match e
    case Leaf(token) => [token]
    case Paren(c) => [OpenParen] + Flatten(c) + [CloseParen]
    case Prefixed(op, c) => [op] + Flatten(c)
    case CastBare(c) => [Cast] + Flatten(c)
    case CastEmpty(c) => [Cast, OpenBracket, CloseBracket] + Flatten(c)
    case CastTo(to, c) => [Cast, OpenBracket] + Flatten(to) + [CloseBracket] + Flatten(c)
    case Infixed(op, l, r) => Flatten(l) + [op] + Flatten(r)
    case Field(c, name) => Flatten(c) + [Dot, name]
    case Call(c, args) => Flatten(c) + [OpenParen] + FlattenArgs(args)
  }

  function FlattenArgs(args: Args): seq<Token> {
    match args
    case NoArgs => [CloseParen]
    case MoreArgs(arg, comma, rest) => Flatten(arg) + (if comma then [Comma] else []) + FlattenArgs(rest)
  }

  // ----- the stratified grammar -----

  predicate IsLeaf(t: Token) {
    t.Ident? || t.Int? || t.Float? || t.Str? || t.Primitive?
  }

  /** The stratum of a tree, by its outermost form: 1 for sums, 2 for products, 4 for prefixed
      operands and casts, 5 for everything that binds tighter. */
  function Stratum(e: Cst): nat {
    match e
    case Infixed(op, _, _) => if op == Plus || op == Minus then 1 else 2
    case Prefixed(_, _) => 4
    case CastBare(_) => 4
    case CastEmpty(_) => 4
    case CastTo(_, _) => 4
    case _ => 5
  }

  /** Trees of the grammar
        sum     ::= sum ("+" | "-") product | product
        product ::= product ("*" | "/") operand | operand
        operand ::= ("+" | "-" | "distinct") operand | "cast" ["[" [sum] "]"] operand | postfix
        postfix ::= postfix "." name | postfix "(" args ")" | "(" sum ")" | leaf
        args    ::= [sum {"," sum} [","]]
      so every operator associates to the left. */
  predicate Stratified(e: Cst) {
    match e
    case Leaf(token) => IsLeaf(token)
    case Paren(c) => Stratified(c)
    case Prefixed(op, c) => op in {Plus, Minus, Distinct} && Stratified(c) && Stratum(c) >= 4
    case CastBare(c) => Stratified(c) && Stratum(c) >= 4
    case CastEmpty(c) => Stratified(c) && Stratum(c) >= 4
    case CastTo(to, c) => Stratified(to) && Stratified(c) && Stratum(c) >= 4
    case Infixed(op, l, r) =>
      && op in {Plus, Minus, Star, Slash} && Stratified(l) && Stratified(r)
      && Stratum(l) >= Stratum(e) && Stratum(r) > Stratum(e)
    case Field(c, name) => name.Ident? && Stratified(c) && Stratum(c) == 5
    case Call(c, args) => Stratified(c) && Stratum(c) == 5 && StratifiedArgs(args)
  }

  predicate StratifiedArgs(args: Args) {
    match args
    case NoArgs => true
    case MoreArgs(arg, comma, rest) => Stratified(arg) && StratifiedArgs(rest) && (comma || rest.NoArgs?)
  }

  // ----- precedence climbing -----

  /** A tree, and the tokens that come after it. */
  datatype Parsed<+T> = Parsed(tree: T, rest: seq<Token>)

  /** parse_precedence: a prefix form, then the loop over what may follow it. */
  function Parse(prec: nat, ts: seq<Token>): (r: Option<Parsed<Cst>>)
    ensures r.Some? ==> |r.value.rest| < |ts|
    decreases |ts|, 1
  {
    if ts == [] then None
    else
      var p := ParsePrefix(ts);
      if p.None? then None else Climb(prec, p.value.tree, p.value.rest)
  }

  function ParsePrefix(ts: seq<Token>): (r: Option<Parsed<Cst>>)
    requires ts != []
    ensures r.Some? ==> |r.value.rest| < |ts|
    decreases |ts|, 0
  {
    match GetRule(ts[0]).prefix
    case NoPrefix => None
    case AutoStructRule => None
    case LeafRule => Some(Parsed(Leaf(ts[0]), ts[1..]))
    case GroupingRule =>
      var c := Parse(PREC_TERM, ts[1..]);
      if c.Some? && Starts(c.value.rest, CloseParen) then Some(Parsed(Paren(c.value.tree), c.value.rest[1..])) else None
    case UnaryRule => Apply(c => Prefixed(ts[0], c), Parse(PREC_UNARY, ts[1..]))
    case DistinctRule => Apply(c => Prefixed(ts[0], c), Parse(PREC_UNARY, ts[1..]))
    case CastRule =>
      if !Starts(ts[1..], OpenBracket) then Apply(c => CastBare(c), Parse(PREC_UNARY, ts[1..]))
      else if Starts(ts[2..], CloseBracket) then Apply(c => CastEmpty(c), Parse(PREC_UNARY, ts[3..]))
      else
        var to := Parse(PREC_TERM, ts[2..]);
        if to.Some? && Starts(to.value.rest, CloseBracket)
        then Apply(c => CastTo(to.value.tree, c), Parse(PREC_UNARY, to.value.rest[1..]))
        else None
  }

  predicate Starts(ts: seq<Token>, t: Token) {
    ts != [] && ts[0] == t
  }

  function Apply(f: Cst -> Cst, p: Option<Parsed<Cst>>): Option<Parsed<Cst>> {
    if p.Some? then Some(Parsed(f(p.value.tree), p.value.rest)) else None
  }

  function Climb(prec: nat, left: Cst, ts: seq<Token>): (r: Option<Parsed<Cst>>)
    ensures r.Some? ==> |r.value.rest| <= |ts|
    decreases |ts|, 1
  {
    if Stops(ts, prec) then Some(Parsed(left, ts))
    else
      var p := ParseInfix(left, ts);
      if p.None? then None else Climb(prec, p.value.tree, p.value.rest)
  }

  /** The loop ends at the end of the file, or at a token of a lower precedence. */
  predicate Stops(ts: seq<Token>, prec: nat) {
    ts == [] || GetRule(ts[0]).precedence < prec
  }

  function ParseInfix(left: Cst, ts: seq<Token>): (r: Option<Parsed<Cst>>)
    requires ts != []
    ensures r.Some? ==> |r.value.rest| < |ts|
    decreases |ts|, 0
  {
    match GetRule(ts[0]).infix
    case NoInfix => None
    case BinaryRule => Apply(r => Infixed(ts[0], left, r), Parse(GetRule(ts[0]).precedence + 1, ts[1..]))
    case FieldRule => if |ts| > 1 && ts[1].Ident? then Some(Parsed(Field(left, ts[1]), ts[2..])) else None
    case CallRule =>
      var args := ParseArgs(ts[1..]);
      if args.Some? then Some(Parsed(Call(left, args.value.tree), args.value.rest)) else None
  }

  /** The loop of func_call_infix, up to and including the closing parenthesis. */
  function ParseArgs(ts: seq<Token>): (r: Option<Parsed<Args>>)
    ensures r.Some? ==> |r.value.rest| < |ts|
    decreases |ts|, 2
  {
    if ts == [] then None
    else if ts[0] == CloseParen then Some(Parsed(NoArgs, ts[1..]))
    else
      var arg := Parse(PREC_TERM, ts);
      if arg.None? then None
      else if Starts(arg.value.rest, Comma) then
        var more := ParseArgs(arg.value.rest[1..]);
        if more.Some? then Some(Parsed(MoreArgs(arg.value.tree, true, more.value.tree), more.value.rest)) else None
      else if Starts(arg.value.rest, CloseParen) then
        Some(Parsed(MoreArgs(arg.value.tree, false, NoArgs), arg.value.rest[1..]))
      else None
  }

  // ----- what is accepted is a tree of the grammar -----

  /** No operator at the front of `rest` would take e, or its last operand, as its own operand. */
  predicate Closed(e: Cst, rest: seq<Token>) {
    Stratum(e) == 5 || Stops(rest, if Stratum(e) == 4 then 4 else Stratum(e) + 1)
  }

  lemma Uncons(ts: seq<Token>)
    requires ts != []
    ensures ts == [ts[0]] + ts[1..]
    ensures |ts| > 1 ==> ts[1..][1..] == ts[2..]
    ensures |ts| > 2 ==> ts[2..][1..] == ts[3..]
  {
  }

  lemma Cons(t: Token, ts: seq<Token>)
    ensures ([t] + ts)[1..] == ts
  {
  }

  lemma ConsCons(t: Token, u: Token, ts: seq<Token>)
    ensures ([t] + ([u] + ts))[1..] == [u] + ts && ([t] + ([u] + ts))[2..] == ts
  {
  }

  /** The tokens of a tree and what follows, taken apart from the left. */
  function Spread(e: Cst, rest: seq<Token>): seq<Token> {
    match e
    case Leaf(token) => [token] + rest
    case Paren(c) => [OpenParen] + (Flatten(c) + ([CloseParen] + rest))
    case Prefixed(op, c) => [op] + (Flatten(c) + rest)
    case CastBare(c) => [Cast] + (Flatten(c) + rest)
    case CastEmpty(c) => [Cast] + ([OpenBracket] + ([CloseBracket] + (Flatten(c) + rest)))
    case CastTo(to, c) => [Cast] + ([OpenBracket] + (Flatten(to) + ([CloseBracket] + (Flatten(c) + rest))))
    case Infixed(op, l, r) => Flatten(l) + ([op] + (Flatten(r) + rest))
    case Field(c, name) => Flatten(c) + ([Dot] + ([name] + rest))
    case Call(c, args) => Flatten(c) + ([OpenParen] + (FlattenArgs(args) + rest))
  }

  lemma FlattenSpread(e: Cst, rest: seq<Token>)
    ensures Flatten(e) + rest == Spread(e, rest)
  {
    if e.CastTo? {
      CastToSpread(Flatten(e.to), Flatten(e.e), rest);
    }
  }

  lemma CastToSpread(to: seq<Token>, c: seq<Token>, rest: seq<Token>)
    ensures [Cast, OpenBracket] + to + [CloseBracket] + c + rest ==
            [Cast] + ([OpenBracket] + (to + ([CloseBracket] + (c + rest))))
  {
  }

  lemma FlattenSpreadArgs(args: Args, rest: seq<Token>)
    requires args.MoreArgs?
    ensures var after := FlattenArgs(args.rest) + rest;
      FlattenArgs(args) + rest == Flatten(args.arg) + if args.comma then [Comma] + after else after
  {
  }

  ghost predicate Derives(prec: nat, ts: seq<Token>, e: Cst, rest: seq<Token>) {
    ts == Flatten(e) + rest && Stratified(e) && Stratum(e) >= prec && Stops(rest, prec)
  }

  lemma StopsClosed(prec: nat, e: Cst, rest: seq<Token>)
    requires prec <= PREC_UNARY && Stratum(e) >= prec && Stops(rest, prec)
    ensures Closed(e, rest)
  {
  }

  lemma {:induction false} ParseSound(prec: nat, ts: seq<Token>)
    requires 1 <= prec <= PREC_UNARY && Parse(prec, ts).Some?
    ensures var r := Parse(prec, ts).value; Derives(prec, ts, r.tree, r.rest)
    decreases |ts|, 2
  {
    var p := ParsePrefix(ts).value;
    PrefixSound(ts);
    ClimbSound(prec, p.tree, p.rest);
  }

  lemma {:induction false} PrefixSound(ts: seq<Token>)
    requires ts != [] && ParsePrefix(ts).Some?
    ensures var r := ParsePrefix(ts).value; PrefixDerives(ts, r.tree, r.rest)
    decreases |ts|, 1
  {
    hide Parse, Flatten;
    Uncons(ts);
    match GetRule(ts[0]).prefix
    case LeafRule =>
      FlattenSpread(Leaf(ts[0]), ts[1..]);
    case GroupingRule =>
      ParseSound(PREC_TERM, ts[1..]);
      var c := Parse(PREC_TERM, ts[1..]).value;
      Uncons(c.rest);
      FlattenSpread(Paren(c.tree), c.rest[1..]);
    case UnaryRule =>
      OperandSound(ts[1..]);
      var c := Parse(PREC_UNARY, ts[1..]).value;
      FlattenSpread(Prefixed(ts[0], c.tree), c.rest);
    case DistinctRule =>
      OperandSound(ts[1..]);
      var c := Parse(PREC_UNARY, ts[1..]).value;
      FlattenSpread(Prefixed(ts[0], c.tree), c.rest);
    case CastRule =>
      CastSound(ts);
  }

  ghost predicate PrefixDerives(ts: seq<Token>, e: Cst, rest: seq<Token>) {
    ts == Flatten(e) + rest && Stratified(e) && Stratum(e) >= 4 && Closed(e, rest)
  }

  lemma {:induction false} OperandSound(ts: seq<Token>)
    requires Parse(PREC_UNARY, ts).Some?
    ensures var r := Parse(PREC_UNARY, ts).value; PrefixDerives(ts, r.tree, r.rest) && Stops(r.rest, PREC_UNARY)
    decreases |ts|, 3
  {
    ParseSound(PREC_UNARY, ts);
  }

  lemma {:induction false} CastSound(ts: seq<Token>)
    requires Starts(ts, Cast) && ParsePrefix(ts).Some?
    ensures var r := ParsePrefix(ts).value; PrefixDerives(ts, r.tree, r.rest)
    decreases |ts|, 0, 1
  {
    hide Parse, Flatten;
    Uncons(ts);
    if !Starts(ts[1..], OpenBracket) {
      OperandSound(ts[1..]);
      var c := Parse(PREC_UNARY, ts[1..]).value;
      FlattenSpread(CastBare(c.tree), c.rest);
    } else if Starts(ts[2..], CloseBracket) {
      Uncons(ts[1..]);
      Uncons(ts[2..]);
      OperandSound(ts[3..]);
      var c := Parse(PREC_UNARY, ts[3..]).value;
      FlattenSpread(CastEmpty(c.tree), c.rest);
    } else {
      CastToSound(ts);
    }
  }

  lemma {:induction false} CastToSound(ts: seq<Token>)
    requires Starts(ts, Cast) && Starts(ts[1..], OpenBracket) && !Starts(ts[2..], CloseBracket) && ParsePrefix(ts).Some?
    ensures var r := ParsePrefix(ts).value; PrefixDerives(ts, r.tree, r.rest)
    decreases |ts|, 0, 0
  {
    hide Parse, Flatten;
    Uncons(ts);
    Uncons(ts[1..]);
    ParseSound(PREC_TERM, ts[2..]);
    var to := Parse(PREC_TERM, ts[2..]).value;
    Uncons(to.rest);
    OperandSound(to.rest[1..]);
    var c := Parse(PREC_UNARY, to.rest[1..]).value;
    FlattenSpread(CastTo(to.tree, c.tree), c.rest);
  }

  lemma {:induction false} ClimbSound(prec: nat, left: Cst, ts: seq<Token>)
    requires 1 <= prec <= PREC_UNARY && Climb(prec, left, ts).Some?
    requires Stratified(left) && Stratum(left) >= prec && Closed(left, ts)
    ensures var r := Climb(prec, left, ts).value; Derives(prec, Flatten(left) + ts, r.tree, r.rest)
    decreases |ts|, 2
  {
    if !Stops(ts, prec) {
      var p := ParseInfix(left, ts).value;
      InfixSound(left, ts);
      ClimbSound(prec, p.tree, p.rest);
    }
  }

  lemma {:induction false} InfixSound(left: Cst, ts: seq<Token>)
    requires ts != [] && ParseInfix(left, ts).Some? && Stratified(left) && Closed(left, ts)
    ensures var r := ParseInfix(left, ts).value;
      && Flatten(left) + ts == Flatten(r.tree) + r.rest && Stratified(r.tree)
      && Stratum(r.tree) == GetRule(ts[0]).precedence && Closed(r.tree, r.rest)
    decreases |ts|, 0
  {
    hide Parse, ParseArgs, Flatten, FlattenArgs;
    Uncons(ts);
    match GetRule(ts[0]).infix
    case BinaryRule =>
      ParseSound(GetRule(ts[0]).precedence + 1, ts[1..]);
      var r := Parse(GetRule(ts[0]).precedence + 1, ts[1..]).value;
      FlattenSpread(Infixed(ts[0], left, r.tree), r.rest);
    case FieldRule =>
      Uncons(ts[1..]);
      FlattenSpread(Field(left, ts[1]), ts[2..]);
    case CallRule =>
      ArgsSound(ts[1..]);
      var args := ParseArgs(ts[1..]).value;
      FlattenSpread(Call(left, args.tree), args.rest);
  }

  lemma {:induction false} ArgsSound(ts: seq<Token>)
    requires ParseArgs(ts).Some?
    ensures var r := ParseArgs(ts).value; ts == FlattenArgs(r.tree) + r.rest && StratifiedArgs(r.tree)
    decreases |ts|, 3
  {
    Uncons(ts);
    if ts[0] != CloseParen {
      ParseSound(PREC_TERM, ts);
      var arg, r := Parse(PREC_TERM, ts).value, ParseArgs(ts).value;
      Uncons(arg.rest);
      if Starts(arg.rest, Comma) {
        ArgsSound(arg.rest[1..]);
      }
      FlattenSpreadArgs(r.tree, r.rest);
    }
  }

  // ----- every tree of the grammar is found -----

  lemma {:induction false} ParseComplete(prec: nat, e: Cst, rest: seq<Token>)
    requires 1 <= prec <= PREC_UNARY && Stratified(e) && Stratum(e) >= prec && Closed(e, rest)
    ensures Parse(prec, Flatten(e) + rest) == Climb(prec, e, rest)
    decreases e, 2
  {
    hide ParsePrefix, ParseInfix, ParseArgs, FlattenArgs, Flatten;
    FlattenSpread(e, rest);
    if e.Infixed? {
      ParseComplete(prec, e.l, [e.op] + (Flatten(e.r) + rest));
      ParseExact(GetRule(e.op).precedence + 1, e.r, rest);
      InfixedStep(e.op, e.l, e.r, Flatten(e.r) + rest, rest);
    } else if e.Field? {
      ParseComplete(prec, e.e, [Dot] + ([e.name] + rest));
      FieldStep(e.e, e.name, rest);
    } else if e.Call? {
      ParseComplete(prec, e.e, [OpenParen] + (FlattenArgs(e.args) + rest));
      ArgsComplete(e.args, rest);
      CallStep(e.e, e.args, FlattenArgs(e.args) + rest, rest);
    } else {
      PrefixComplete(e, rest);
    }
  }

  lemma {:induction false} ParseExact(prec: nat, e: Cst, rest: seq<Token>)
    requires 1 <= prec <= PREC_UNARY && Stratified(e) && Stratum(e) >= prec && Stops(rest, prec)
    ensures Parse(prec, Flatten(e) + rest) == Some(Parsed(e, rest))
    decreases e, 3
  {
    StopsClosed(prec, e, rest);
    ParseComplete(prec, e, rest);
  }

  lemma {:induction false} PrefixComplete(e: Cst, rest: seq<Token>)
    requires !e.Infixed? && !e.Field? && !e.Call? && Stratified(e) && Closed(e, rest)
    ensures ParsePrefix(Flatten(e) + rest) == Some(Parsed(e, rest))
    decreases e, 1
  {
    hide Parse, ParsePrefix, Flatten;
    FlattenSpread(e, rest);
    if e.Leaf? {
      LeafStep(e.token, rest);
    } else if e.Paren? {
      ParseExact(PREC_TERM, e.e, [CloseParen] + rest);
      ParenStep(e.e, Flatten(e.e) + ([CloseParen] + rest), rest);
    } else {
      ParseExact(PREC_UNARY, e.e, rest);
      var operand := Flatten(e.e) + rest;
      if e.Prefixed? {
        PrefixedStep(e.op, e.e, operand, rest);
      } else if e.CastBare? {
        FirstToken(e.e);
        CastBareStep(e.e, operand, rest);
      } else if e.CastEmpty? {
        CastEmptyStep(e.e, operand, rest);
      } else {
        FirstToken(e.to);
        ParseExact(PREC_TERM, e.to, [CloseBracket] + operand);
        CastToStep(e.to, e.e, Flatten(e.to) + ([CloseBracket] + operand), operand, rest);
      }
    }
  }

  // What each form does when its parts are parsed as they should be.

  lemma LeafStep(t: Token, rest: seq<Token>)
    requires IsLeaf(t)
    ensures ParsePrefix([t] + rest) == Some(Parsed(Leaf(t), rest))
  {
    Cons(t, rest);
  }

  lemma ParenStep(c: Cst, ts: seq<Token>, rest: seq<Token>)
    requires Parse(PREC_TERM, ts) == Some(Parsed(c, [CloseParen] + rest))
    ensures ParsePrefix([OpenParen] + ts) == Some(Parsed(Paren(c), rest))
  {
    Cons(OpenParen, ts);
    Cons(CloseParen, rest);
  }

  lemma PrefixedStep(op: Token, c: Cst, ts: seq<Token>, rest: seq<Token>)
    requires op in {Plus, Minus, Distinct} && Parse(PREC_UNARY, ts) == Some(Parsed(c, rest))
    ensures ParsePrefix([op] + ts) == Some(Parsed(Prefixed(op, c), rest))
  {
    Cons(op, ts);
  }

  lemma CastBareStep(c: Cst, ts: seq<Token>, rest: seq<Token>)
    requires Parse(PREC_UNARY, ts) == Some(Parsed(c, rest)) && !Starts(ts, OpenBracket)
    ensures ParsePrefix([Cast] + ts) == Some(Parsed(CastBare(c), rest))
  {
    Cons(Cast, ts);
  }

  lemma CastEmptyStep(c: Cst, ts: seq<Token>, rest: seq<Token>)
    requires Parse(PREC_UNARY, ts) == Some(Parsed(c, rest))
    ensures ParsePrefix([Cast] + ([OpenBracket] + ([CloseBracket] + ts))) == Some(Parsed(CastEmpty(c), rest))
  {
    hide Parse;
    var all := [Cast] + ([OpenBracket] + ([CloseBracket] + ts));
    ConsCons(Cast, OpenBracket, [CloseBracket] + ts);
    Cons(CloseBracket, ts);
    Uncons(all);
  }

  lemma CastToStep(to: Cst, c: Cst, ts: seq<Token>, operand: seq<Token>, rest: seq<Token>)
    requires Parse(PREC_TERM, ts) == Some(Parsed(to, [CloseBracket] + operand)) && !Starts(ts, CloseBracket)
    requires Parse(PREC_UNARY, operand) == Some(Parsed(c, rest))
    ensures ParsePrefix([Cast] + ([OpenBracket] + ts)) == Some(Parsed(CastTo(to, c), rest))
  {
    hide Parse;
    ConsCons(Cast, OpenBracket, ts);
    Cons(CloseBracket, operand);
  }

  lemma InfixedStep(op: Token, l: Cst, r: Cst, ts: seq<Token>, rest: seq<Token>)
    requires op in {Plus, Minus, Star, Slash}
    requires Parse(GetRule(op).precedence + 1, ts) == Some(Parsed(r, rest))
    ensures ParseInfix(l, [op] + ts) == Some(Parsed(Infixed(op, l, r), rest))
  {
    Cons(op, ts);
  }

  lemma FieldStep(l: Cst, name: Token, rest: seq<Token>)
    requires name.Ident?
    ensures ParseInfix(l, [Dot] + ([name] + rest)) == Some(Parsed(Field(l, name), rest))
  {
    ConsCons(Dot, name, rest);
  }

  lemma CallStep(l: Cst, args: Args, ts: seq<Token>, rest: seq<Token>)
    requires ParseArgs(ts) == Some(Parsed(args, rest))
    ensures ParseInfix(l, [OpenParen] + ts) == Some(Parsed(Call(l, args), rest))
  {
    Cons(OpenParen, ts);
  }

  /** An expression starts with a token that has a prefix rule, so not with a bracket. */
  lemma {:induction false} FirstToken(e: Cst)
    requires Stratified(e)
    ensures GetRule(Flatten(e)[0]).prefix != NoPrefix
  {
    match e
    case Infixed(_, l, _) => FirstToken(l);
    case Field(c, _) => FirstToken(c);
    case Call(c, _) => FirstToken(c);
    case _ =>
  }

  lemma {:induction false} ArgsComplete(args: Args, rest: seq<Token>)
    requires StratifiedArgs(args)
    ensures ParseArgs(FlattenArgs(args) + rest) == Some(Parsed(args, rest))
    decreases args
  {
    match args
    case NoArgs =>
      Cons(CloseParen, rest);
    case MoreArgs(arg, comma, more) =>
      FlattenSpreadArgs(args, rest);
      FirstToken(arg);
      if comma {
        Cons(Comma, FlattenArgs(more) + rest);
        ParseExact(PREC_TERM, arg, [Comma] + (FlattenArgs(more) + rest));
        ArgsComplete(more, rest);
      } else {
        Cons(CloseParen, rest);
        ParseExact(PREC_TERM, arg, [CloseParen] + rest);
      }
  }

  // ----- the two together -----

  /** Climbing returns a tree exactly when the grammar derives it from the tokens consumed, and
      what follows does not continue the expression. */
  lemma ParseIffDerives(prec: nat, ts: seq<Token>, e: Cst, rest: seq<Token>)
    requires 1 <= prec <= PREC_UNARY
    ensures Parse(prec, ts) == Some(Parsed(e, rest)) <==> Derives(prec, ts, e, rest)
  {
    if Parse(prec, ts) == Some(Parsed(e, rest)) {
      ParseSound(prec, ts);
    }
    if Derives(prec, ts, e, rest) {
      ParseExact(prec, e, rest);
    }
  }

  /** The grammar is unambiguous: no two trees have the same tokens. */
  lemma Unambiguous(d: Cst, e: Cst)
    requires Stratified(d) && Stratified(e) && Flatten(d) == Flatten(e)
    ensures d == e
  {
    ParseExact(PREC_TERM, d, []);
    ParseExact(PREC_TERM, e, []);
  }
}
