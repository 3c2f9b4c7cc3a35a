// The parser of source/parse.c, reading from the token stream.
module Parser {
  import opened Grammar
  import opened Nodes
  import opened TokenStream
  import opened Wrappers

  // ----- the parser -----

  /** What a client of the token stream can do. */
  datatype Op = Look | LookNext | Take

  /** What an operation sees, and what it leaves, when all tokens are there from the start. */
  function See(op: Op, ts: seq<Token>): (Token, seq<Token>) {
    match op
    case Look => (if ts == [] then Eof else ts[0], ts)
    case LookNext => (if |ts| < 2 then Eof else ts[1], ts)
    case Take => if ts == [] then (Nothing, []) else (ts[0], ts[1..])
  }

  function Seen(ops: seq<Op>, ts: seq<Token>): seq<Token> {
    if ops == [] then [] else [See(ops[0], ts).0] + Seen(ops[1..], See(ops[0], ts).1)
  }

  lemma SeenStep(seen: seq<Token>, token: Token, ops: seq<Op>, i: nat, before: seq<Token>, after: seq<Token>)
    requires i < |ops| && See(ops[i], before) == (token, after)
    ensures seen + Seen(ops[i..], before) == seen + [token] + Seen(ops[i + 1..], after)
  {
    assert ops[i..][1..] == ops[i + 1..];
  }

  /** The argument list `all` is the arguments found, and then the list `more`. */
  ghost predicate Left(all: Option<Parsed<Args>>, args: seq<Node>, more: Option<Parsed<Args>>) {
    && (all.Some? <==> more.Some?)
    && (all.Some? ==> all.value.rest == more.value.rest && EraseArgs(all.value.tree) == args + EraseArgs(more.value.tree))
  }

  /** An argument stands at the front of ts, and more of the list in `rest`. */
  ghost predicate OneArgument(ts: seq<Token>, arg: Node, rest: seq<Token>) {
    var one := Parse(PREC_TERM, ts);
    && one.Some? && arg == Erase(one.value.tree)
    && if Starts(one.value.rest, Comma) then rest == one.value.rest[1..]
       else Starts(one.value.rest, CloseParen) && rest == one.value.rest
  }

  lemma ArgumentStep(all: Option<Parsed<Args>>, args: seq<Node>, ts: seq<Token>, arg: Node, rest: seq<Token>)
    requires ts != [] && ts[0] != CloseParen && OneArgument(ts, arg, rest) && Left(all, args, ParseArgs(ts))
    ensures Left(all, args + [arg], ParseArgs(rest))
  {
  }

  lemma ArgumentsBegin(ts: seq<Token>)
    ensures Left(ParseArgs(ts), [], ParseArgs(ts))
  {
  }

  lemma ArgumentsEnd(all: Option<Parsed<Args>>, args: seq<Node>, ts: seq<Token>)
    requires Left(all, args, ParseArgs(ts)) && (ts == [] || ts[0] == CloseParen)
    ensures all.Some? <==> Starts(ts, CloseParen)
    ensures all.Some? ==> EraseArgs(all.value.tree) == args && all.value.rest == ts[1..]
  {
  }

  lemma CallSpec(tree: Cst, ts: seq<Token>)
    requires Starts(ts, OpenParen)
    ensures var args := ParseArgs(ts[1..]);
      ParseInfix(tree, ts) == if args.Some? then Some(Parsed(Call(tree, args.value.tree), args.value.rest)) else None
  {
  }

  lemma FieldSpec(tree: Cst, ts: seq<Token>)
    requires Starts(ts, Dot)
    ensures ParseInfix(tree, ts) == if |ts| > 1 && ts[1].Ident? then Some(Parsed(Field(tree, ts[1]), ts[2..])) else None
    ensures |ts| > 1 ==> ts[1..][1..] == ts[2..]
  {
  }

  /** The type of a cast is what stands between brackets; none for `cast` and `cast[]`. */
  ghost predicate Targets(ts: seq<Token>, to: Option<Node>, rest: seq<Token>)
    requires Starts(ts, Cast)
  {
    if !Starts(ts[1..], OpenBracket) then to == None && rest == ts[1..]
    else if Starts(ts[2..], CloseBracket) then to == None && rest == ts[3..]
    else
      var target := Parse(PREC_TERM, ts[2..]);
      && target.Some? && Starts(target.value.rest, CloseBracket)
      && to == Some(Erase(target.value.tree)) && rest == target.value.rest[1..]
  }

  lemma CastSpec(ts: seq<Token>, to: Option<Node>, rest: seq<Token>)
    requires Starts(ts, Cast) && Targets(ts, to, rest)
    ensures var p, c := ParsePrefix(ts), Parse(PREC_UNARY, rest);
      && (p.Some? <==> c.Some?)
      && (p.Some? ==> Erase(p.value.tree) == CastNode(to, Erase(c.value.tree)) && p.value.rest == c.value.rest)
  {
    hide Parse;
  }

  class Parser {
    const stream: Stream
    var previous: Token

    constructor (source: Source)
      requires source.Scannable()
      ensures Running() && fresh(stream) && fresh(stream.items)
      ensures stream.source == source && Rest() == source.Tokens(0)
      ensures forall n, ks :: source.Schedule(n, ks) ==> Rest() == source.Lexemes(ks)
    {
      stream := new Stream(source);
      previous := Nothing;
      new;
      forall n, ks | source.Schedule(n, ks)
        ensures source.Tokens(0) == source.Lexemes(ks)
      {
        source.TokensScheduled(n, ks);
      }
    }

    ghost predicate Running()
      reads stream, stream.items
    {
      stream.Running()
    }

    /** The tokens not yet taken. */
    ghost function Rest(): (ts: seq<Token>)
      requires stream.Valid()
      reads stream, stream.items
      ensures Eof !in ts
    {
      stream.Remaining()
    }

    /** The process may only end here for an error in the file's lexemes. */
    ghost predicate Fails(e: Exit)
    {
      e == BadLexeme && stream.source.Scannable() && stream.source.Faulty(0)
    }

    method Peek() returns (r: Result<Token, Exit>)
      requires Running()
      modifies stream, stream.items
      ensures r.Ok? ==> Running() && Rest() == old(Rest()) && r.value == if Rest() == [] then Eof else Rest()[0]
      ensures r.Err? ==> Fails(r.error)
    {
      r := stream.Peek();
    }

    method PeekNext() returns (r: Result<Token, Exit>)
      requires Running()
      modifies stream, stream.items
      ensures r.Ok? ==> Running() && Rest() == old(Rest()) && r.value == if |Rest()| < 2 then Eof else Rest()[1]
      ensures r.Err? ==> Fails(r.error)
    {
      r := stream.PeekNext();
    }

    method Ended() returns (r: Result<bool, Exit>)
      requires Running()
      modifies stream, stream.items
      ensures r.Ok? ==> Running() && Rest() == old(Rest()) && r.value == (Rest() == [])
      ensures r.Ok? && r.value ==> stream.ended
      ensures r.Err? ==> Fails(r.error)
    {
      var token :- stream.Peek();
      r := Ok(token == Eof || stream.Finished());
    }

    /** Takes a token only if there is one, so the stream never reads past its end. */
    method Advance() returns (r: Result<Token, Exit>)
      requires Running()
      modifies this, stream, stream.items
      ensures r.Ok? && old(Rest()) == [] ==>
        Running() && Rest() == [] && r.value == Nothing && previous == old(previous)
      ensures r.Ok? && old(Rest()) != [] ==>
        Running() && Rest() == old(Rest())[1..] && r.value == previous == old(Rest())[0]
      ensures r.Err? ==> Fails(r.error)
    {
      var over :- Ended();
      if over {
        return Ok(Nothing);
      }
      previous :- Peek();
      var _ :- stream.Advance();
      r := Ok(previous);
    }

    /** Lexing on demand cannot be told from lexing everything first, whatever is looked at and
        taken in whatever order. */
    method Run(ops: seq<Op>) returns (r: Result<seq<Token>, Exit>)
      requires Running()
      modifies this, stream, stream.items
      ensures r.Ok? ==> Running() && r.value == Seen(ops, old(Rest()))
      ensures r.Ok? ==> forall n, ks :: stream.source.Schedule(n, ks) ==>
                old(stream.readCursor) <= |ks| && r.value == Seen(ops, stream.source.Lexemes(ks)[old(stream.readCursor)..])
      ensures r.Err? ==> Fails(r.error)
    {
      forall n, ks | stream.source.Schedule(n, ks)
        ensures stream.readCursor <= |ks| && Rest() == stream.source.Lexemes(ks)[stream.readCursor..]
      {
        stream.RemainingScheduled(n, ks);
      }
      var seen := [];
      for i := 0 to |ops|
        invariant Running() && seen + Seen(ops[i..], Rest()) == Seen(ops, old(Rest()))
      {
        ghost var before := Rest();
        var token :- Do(ops[i]);
        SeenStep(seen, token, ops, i, before, Rest());
        seen := seen + [token];
      }
      assert ops[|ops|..] == [];
      r := Ok(seen);
    }

    method Do(op: Op) returns (r: Result<Token, Exit>)
      requires Running()
      modifies this, stream, stream.items
      ensures r.Ok? ==> Running() && (r.value, Rest()) == See(op, old(Rest()))
      ensures r.Err? ==> Fails(r.error)
    {
      match op
      case Look => r := Peek();
      case LookNext => r := PeekNext();
      case Take => r := Advance();
    }

    method Check(t: Token) returns (r: Result<bool, Exit>)
      requires Running() && t != Eof
      modifies stream, stream.items
      ensures r.Ok? ==> Running() && Rest() == old(Rest()) && r.value == Starts(Rest(), t)
      ensures r.Err? ==> Fails(r.error)
    {
      var over :- Ended();
      if over {
        return Ok(false);
      }
      var token :- Peek();
      r := Ok(token == t);
    }

    method Match(t: Token) returns (r: Result<bool, Exit>)
      requires Running() && t != Eof
      modifies this, stream, stream.items
      ensures r.Ok? ==> Running() && r.value == Starts(old(Rest()), t)
      ensures r.Ok? ==> Rest() == if r.value then old(Rest())[1..] else old(Rest())
      ensures r.Err? ==> Fails(r.error)
    {
      r := Check(t);
      if r == Ok(true) {
        var _ :- Advance();
      }
    }

    method Consume(t: Token) returns (r: Result<(), Exit>)
      requires Running() && t != Eof
      modifies this, stream, stream.items
      ensures r.Ok? ==> Running() && Starts(old(Rest()), t) && Rest() == old(Rest())[1..]
      ensures r.Err? && !Fails(r.error) ==> r.error == BadSyntax && !Starts(old(Rest()), t)
    {
      var matched :- Match(t);
      r := if matched then Ok(()) else Err(BadSyntax);
    }

    // ----- expressions -----

    /** The outcome r agrees with what the grammar says: the same tree and the same rest, or a
        syntax error where there is no tree. */
    ghost predicate Agrees(spec: Option<Parsed<Cst>>, r: Result<Node, Exit>)
      reads stream, stream.items
    {
      match r
      case Ok(node) => Running() && spec.Some? && node == Erase(spec.value.tree) && Rest() == spec.value.rest
      case Err(e) => Fails(e) || (e == BadSyntax && spec.None?)
    }

    method ParsePrecedence(prec: nat) returns (r: Result<Node, Exit>)
      requires Running()
      modifies this, stream, stream.items
      ensures Agrees(Parse(prec, old(Rest())), r)
      decreases |Rest()|, 3
    {
      hide Stream.Valid, Stream.Remaining, ParsePrefix, ParseInfix;
      var over :- Ended();
      if over {
        return Err(BadSyntax);
      }
      ghost var ts := Rest();
      var token :- Advance();
      var left :- PrefixForm(token, ts);
      ghost var tree := ParsePrefix(ts).value.tree;
      while true
        invariant Running() && left == Erase(tree) && Parse(prec, ts) == Climb(prec, tree, Rest()) && |Rest()| < |ts|
        decreases |Rest()|
      {
        var next :- Peek();
        over :- Ended();
        if over || GetRule(next).precedence < prec {
          break;
        }
        ghost var here := Rest();
        token :- Advance();
        left :- InfixForm(token, left, tree, here);
        tree := ParseInfix(tree, here).value.tree;
      }
      r := Ok(left);
    }

    /** The prefix rule of the token just taken. */
    method PrefixForm(token: Token, ghost ts: seq<Token>) returns (r: Result<Node, Exit>)
      requires Running() && ts != [] && token == ts[0] && Rest() == ts[1..]
      modifies this, stream, stream.items
      ensures Agrees(ParsePrefix(ts), r)
      decreases |ts|, 2
    {
      match GetRule(token).prefix
      case NoPrefix => r := Err(BadSyntax);
      case AutoStructRule => r := Err(BadSyntax);
      case LeafRule => r := Ok(LeafNode(token));
      case GroupingRule => r := Grouping(ts);
      case UnaryRule => r := Unary(token, ts);
      case DistinctRule => r := DistinctForm(ts);
      case CastRule => r := CastForm(ts);
    }

    method Grouping(ghost ts: seq<Token>) returns (r: Result<Node, Exit>)
      requires Running() && Starts(ts, OpenParen) && Rest() == ts[1..]
      modifies this, stream, stream.items
      ensures Agrees(ParsePrefix(ts), r)
      decreases |ts|, 0
    {
      hide Stream.Valid, Stream.Remaining, Parse;
      var child :- ParsePrecedence(PREC_TERM);
      var _ :- Consume(CloseParen);
      r := Ok(GroupingNode(child));
    }

    method Unary(op: Token, ghost ts: seq<Token>) returns (r: Result<Node, Exit>)
      requires Running() && Starts(ts, op) && op in {Plus, Minus} && Rest() == ts[1..]
      modifies this, stream, stream.items
      ensures Agrees(ParsePrefix(ts), r)
      decreases |ts|, 0
    {
      hide Stream.Valid, Stream.Remaining, Parse;
      var rhs :- ParsePrecedence(PREC_UNARY);
      r := Ok(UnaryNode(op, rhs));
    }

    method DistinctForm(ghost ts: seq<Token>) returns (r: Result<Node, Exit>)
      requires Running() && Starts(ts, Distinct) && Rest() == ts[1..]
      modifies this, stream, stream.items
      ensures Agrees(ParsePrefix(ts), r)
      decreases |ts|, 0
    {
      hide Stream.Valid, Stream.Remaining, Parse;
      var child :- ParsePrecedence(PREC_UNARY);
      r := Ok(DistinctNode(child));
    }

    method CastForm(ghost ts: seq<Token>) returns (r: Result<Node, Exit>)
      requires Running() && Starts(ts, Cast) && Rest() == ts[1..]
      modifies this, stream, stream.items
      ensures Agrees(ParsePrefix(ts), r)
      decreases |ts|, 1
    {
      hide Stream.Valid, Stream.Remaining, Parse, ParsePrefix, Targets;
      var to :- CastTarget(ts);
      CastSpec(ts, to, Rest());
      var child :- ParsePrecedence(PREC_UNARY);
      r := Ok(CastNode(to, child));
    }

    method CastTarget(ghost ts: seq<Token>) returns (r: Result<Option<Node>, Exit>)
      requires Running() && Starts(ts, Cast) && Rest() == ts[1..]
      modifies this, stream, stream.items
      ensures r.Ok? ==> Running() && Targets(ts, r.value, Rest()) && |Rest()| < |ts|
      ensures r.Err? && !Fails(r.error) ==> r.error == BadSyntax && ParsePrefix(ts).None?
      decreases |ts|, 0
    {
      hide Stream.Valid, Stream.Remaining, Parse;
      var bracket :- Match(OpenBracket);
      if !bracket {
        return Ok(None);
      }
      Uncons(ts);
      var closed :- Match(CloseBracket);
      if closed {
        Uncons(ts);
        return Ok(None);
      }
      var target :- ParsePrecedence(PREC_TERM);
      var _ :- Consume(CloseBracket);
      r := Ok(Some(target));
    }

    /** The infix rule of the token just taken, applied to the node on its left. */
    method InfixForm(token: Token, left: Node, ghost tree: Cst, ghost ts: seq<Token>) returns (r: Result<Node, Exit>)
      requires Running() && Starts(ts, token) && Rest() == ts[1..] && left == Erase(tree)
      modifies this, stream, stream.items
      ensures Agrees(ParseInfix(tree, ts), r)
      decreases |ts|, 1
    {
      match GetRule(token).infix
      case NoInfix => r := Err(BadSyntax);
      case BinaryRule => r := Binary(token, left, tree, ts);
      case FieldRule => r := FieldAccess(left, tree, ts);
      case CallRule => r := FuncCall(left, tree, ts);
    }

    method Binary(op: Token, lhs: Node, ghost tree: Cst, ghost ts: seq<Token>) returns (r: Result<Node, Exit>)
      requires Running() && Starts(ts, op) && GetRule(op).infix == BinaryRule
      requires Rest() == ts[1..] && lhs == Erase(tree)
      modifies this, stream, stream.items
      ensures Agrees(ParseInfix(tree, ts), r)
      decreases |ts|, 0
    {
      hide Stream.Valid, Stream.Remaining, Parse, ParseArgs;
      var rule := GetRule(op);
      var precedence := rule.precedence + 1;
      if rule.rightAssoc {
        precedence := rule.precedence;
      }
      var rhs :- ParsePrecedence(precedence);
      r := Ok(BinaryNode(op, lhs, rhs));
    }

    method FieldAccess(lhs: Node, ghost tree: Cst, ghost ts: seq<Token>) returns (r: Result<Node, Exit>)
      requires Running() && Starts(ts, Dot) && Rest() == ts[1..] && lhs == Erase(tree)
      modifies this, stream, stream.items
      ensures Agrees(ParseInfix(tree, ts), r)
    {
      hide Stream.Valid, Stream.Remaining, Parse, ParseArgs, ParseInfix;
      FieldSpec(tree, ts);
      var token :- Peek();
      if !token.Ident? {
        return Err(BadSyntax);
      }
      var _ :- Advance();
      r := Ok(AccessNode(lhs, token));
    }

    method FuncCall(callee: Node, ghost tree: Cst, ghost ts: seq<Token>) returns (r: Result<Node, Exit>)
      requires Running() && Starts(ts, OpenParen) && Rest() == ts[1..] && callee == Erase(tree)
      modifies this, stream, stream.items
      ensures Agrees(ParseInfix(tree, ts), r)
      decreases |ts|, 0
    {
      hide Stream.Valid, Stream.Remaining, Parse, ParseArgs, ParseInfix;
      CallSpec(tree, ts);
      var args: seq<Node> := [];
      ghost var all := ParseArgs(Rest());
      ArgumentsBegin(Rest());
      while true
        invariant Running() && |Rest()| < |ts| && Left(all, args, ParseArgs(Rest()))
        decreases |Rest()|
      {
        var closed :- Check(CloseParen);
        var over :- Ended();
        if closed || over {
          break;
        }
        ghost var here := Rest();
        var arg :- Argument();
        ArgumentStep(all, args, here, arg, Rest());
        args := args + [arg];
      }
      ArgumentsEnd(all, args, Rest());
      var _ :- Consume(CloseParen);
      r := Ok(CallNode(callee, args));
    }

    /** One argument, and the comma after it; the last may go without. */
    method Argument() returns (r: Result<Node, Exit>)
      requires Running() && Rest() != [] && Rest()[0] != CloseParen
      modifies this, stream, stream.items
      ensures r.Ok? ==> Running() && |Rest()| < |old(Rest())| && OneArgument(old(Rest()), r.value, Rest())
      ensures r.Err? && !Fails(r.error) ==> r.error == BadSyntax && ParseArgs(old(Rest())).None?
      decreases |Rest()|, 4
    {
      hide Stream.Valid, Stream.Remaining, Parse;
      r := ParsePrecedence(PREC_TERM);
      if r.Err? {
        return;
      }
      var comma :- Check(Comma);
      if comma {
        var _ :- Advance();
      } else {
        var closed :- Check(CloseParen);
        if !closed {
          return Err(BadSyntax);  // consume(TK_COMMA) fails, since there is none
        }
      }
    }

    /** expr: the tree of the grammar and nothing else, for the longest expression at the front
        of the file's tokens; or a syntax error when no expression stands there. */
    method Expr() returns (r: Result<Node, Exit>)
      requires Running()
      modifies this, stream, stream.items
      ensures r.Ok? ==> Running()
      ensures r.Ok? ==> exists e :: r.value == Erase(e) && Derives(PREC_TERM, old(Rest()), e, Rest())
      ensures r.Ok? ==> |Rest()| < |old(Rest())| && old(Rest())[|old(Rest())| - |Rest()|..] == Rest()
      ensures r.Ok? ==> Layered(r.value) && Listing(r.value) == Tidy(old(Rest())[..|old(Rest())| - |Rest()|])
      ensures r.Err? && !Fails(r.error) ==> r.error == BadSyntax
      ensures r.Err? && !Fails(r.error) ==> forall e, rest :: !Derives(PREC_TERM, old(Rest()), e, rest)
    {
      hide Listing, Layered, Tidy, Erase, Flatten;
      r := ParsePrecedence(PREC_TERM);
      ghost var ts := old(Rest());
      if r.Ok? {
        ParseSound(PREC_TERM, ts);
        Consumed(ts, Parse(PREC_TERM, ts).value.tree, Rest());
      } else if !Fails(r.error) {
        forall e, rest ensures !Derives(PREC_TERM, ts, e, rest) {
          ParseIffDerives(PREC_TERM, ts, e, rest);
        }
      }
    }
  }
}
