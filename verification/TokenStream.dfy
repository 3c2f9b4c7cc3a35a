// The token stream of source/token_stream.c: a window of 512 tokens over a source file, filled
// when it is empty.
module TokenStream {
  import opened Sequences
  import opened Wrappers

  /** enum token_kind with the token's value. Nothing is the zeroed token, Primitive a type
      keyword, intN or uintN, and Other every kind that no expression here contains. */
  datatype Token =
    | Nothing | Eof
    | Ident(name: string) | Int(n: int) | Float(text: string) | Str(text: string) | Primitive(text: string)
    | OpenParen | CloseParen | OpenBracket | CloseBracket | Comma | Dot
    | Plus | Minus | Star | Slash
    | Cast | Distinct
    | Other(text: string)

  const STREAM_DATA_COUNT: nat := 512

  const SIZE_T: int := 0x1_0000_0000_0000_0000

  /** How the process ends early: start_scanning's exit(67), or the parser's exit(1). */
  datatype Exit = BadLexeme | BadSyntax

  /** What one skip_whitespace and scan_lexem do: the token they add, if any, where they stop,
      and whether they reached the end or reported an error. */
  datatype Step = Step(token: Option<Token>, next: nat, ended: bool, error: bool)

  /** A source file, with its scanner as a function of the position. */
  datatype Source = Source(len: nat, scan: nat -> Step) {

    /** Every step ends the scan or moves on within the file, and no lexeme is TK_EOF. */
    ghost predicate Scannable() {
      forall p: nat :: (scan(p).ended || p < scan(p).next <= len) && scan(p).token != Some(Eof)
    }

    /** Lexing the whole file from p on, with no window. */
    ghost function Tokens(p: nat): (ts: seq<Token>)
      requires Scannable()
      ensures Eof !in ts
      decreases if p <= len then len - p else 0
    {
      Lexeme(p) + if scan(p).ended then [] else Tokens(scan(p).next)
    }

    ghost function Lexeme(p: nat): seq<Token> {
      if scan(p).token.Some? then [scan(p).token.value] else []
    }

    /** Some step from p on reports an error. */
    ghost predicate Faulty(p: nat)
      requires Scannable()
      decreases if p <= len then len - p else 0
    {
      scan(p).error || (!scan(p).ended && Faulty(scan(p).next))
    }

    // The same by positions: the steps of the scan are numbered, and those with a token listed.

    /** Where step k of the scan starts. */
    function Position(k: nat): nat {
      if k == 0 then 0 else scan(Position(k - 1)).next
    }

    function Numbered(k: nat): Step {
      scan(Position(k))
    }

    /** Step n - 1 is the first that ends the scan. */
    ghost predicate Lasts(n: nat) {
      n > 0 && Numbered(n - 1).ended && forall k: nat :: k < n - 1 ==> !Numbered(k).ended
    }

    /** ks are the numbers of exactly those steps that have a token, in order. */
    ghost predicate Schedule(n: nat, ks: seq<nat>) {
      Lasts(n) && Lists(0, n, ks)
    }

    /** The same for the steps from k on. */
    ghost predicate Lists(k: nat, n: nat, ks: seq<nat>) {
      && (forall i, j :: 0 <= i < j < |ks| ==> ks[i] < ks[j])
      && (forall j :: 0 <= j < |ks| ==> k <= ks[j] < n && Numbered(ks[j]).token.Some?)
      && (forall m: nat :: k <= m < n && Numbered(m).token.Some? ==> m in ks)
    }

    /** The tokens of those steps. */
    function Lexemes(ks: seq<nat>): (ts: seq<Token>)
      requires forall j :: 0 <= j < |ks| ==> Numbered(ks[j]).token.Some?
      ensures |ts| == |ks| && forall j :: 0 <= j < |ks| ==> ts[j] == Numbered(ks[j]).token.value
    {
      seq(|ks|, j requires 0 <= j < |ks| => Numbered(ks[j]).token.value)
    }

    /** The token of the step listed at j, TK_EOF beyond the last one. */
    function Listed(ks: seq<nat>, j: nat): Token
      requires forall j :: 0 <= j < |ks| ==> Numbered(ks[j]).token.Some?
    {
      if j < |ks| then Numbered(ks[j]).token.value else Eof
    }

    /** Lexing the whole file gives the token of every step that has one, in order. */
    lemma TokensScheduled(n: nat, ks: seq<nat>)
      requires Scannable() && Schedule(n, ks)
      ensures Tokens(0) == Lexemes(ks)
    {
      TokensFrom(n, 0, ks);
    }

    lemma {:induction false} TokensFrom(n: nat, k: nat, ks: seq<nat>)
      requires Scannable() && Lasts(n) && k < n && Lists(k, n, ks)
      ensures forall j :: 0 <= j < |ks| ==> Numbered(ks[j]).token.Some?
      ensures Tokens(Position(k)) == Lexemes(ks)
      decreases n - k
    {
      hide Tokens, Position, Numbered, Lists, Lasts, Lexemes, Scannable;
      AllListed(k, n, ks);
      EndsLast(n, k);
      TokensStep(k);
      if Numbered(k).token.Some? {
        FirstListed(k, n, ks);
        LexemesFirst(ks);
        if k < n - 1 {
          TokensFrom(n, k + 1, ks[1..]);
        } else {
          ListedWithin(n, n, ks[1..]);
        }
      } else {
        NotListed(k, n, ks);
        if k < n - 1 {
          TokensFrom(n, k + 1, ks);
        } else {
          ListedWithin(n, n, ks);
        }
      }
    }

    lemma AllListed(k: nat, n: nat, ks: seq<nat>)
      requires Lists(k, n, ks)
      ensures forall j :: 0 <= j < |ks| ==> Numbered(ks[j]).token.Some?
    {
      hide Numbered;
    }

    lemma EndsLast(n: nat, k: nat)
      requires Lasts(n) && k < n
      ensures Numbered(k).ended <==> k == n - 1
    {
      hide Numbered;
    }

    /** The tokens from step k on are its own, and those from the next step on. */
    lemma TokensStep(k: nat)
      requires Scannable()
      ensures Tokens(Position(k)) == (if Numbered(k).token.Some? then [Numbered(k).token.value] else []) +
                                     if Numbered(k).ended then [] else Tokens(Position(k + 1))
    {
      assert Numbered(k) == scan(Position(k)) && Position(k + 1) == Numbered(k).next;
    }

    lemma FirstListed(k: nat, n: nat, ks: seq<nat>)
      requires k < n && Lists(k, n, ks) && Numbered(k).token.Some?
      ensures ks != [] && ks[0] == k && Lists(k + 1, n, ks[1..])
    {
      hide Numbered;
      var j :| 0 <= j < |ks| && ks[j] == k;
      assert ks[0] >= k && j == 0;
      forall m: nat | k + 1 <= m < n && Numbered(m).token.Some?
        ensures m in ks[1..]
      {
        var i :| 0 <= i < |ks| && ks[i] == m;
        assert ks[1..][i - 1] == m;
      }
    }

    lemma NotListed(k: nat, n: nat, ks: seq<nat>)
      requires k < n && Lists(k, n, ks) && Numbered(k).token.None?
      ensures Lists(k + 1, n, ks)
    {
      hide Numbered;
    }

    lemma ListedWithin(k: nat, n: nat, ks: seq<nat>)
      requires Lists(k, n, ks)
      ensures ks != [] ==> k <= ks[0] < n
    {
    }

    lemma LexemesFirst(ks: seq<nat>)
      requires ks != [] && forall j :: 0 <= j < |ks| ==> Numbered(ks[j]).token.Some?
      ensures Lexemes(ks) == [Numbered(ks[0]).token.value] + Lexemes(ks[1..])
    {
      hide Numbered;
    }

    /** Some step reports an error, by the same numbering. */
    lemma FaultySteps(n: nat)
      requires Scannable() && Lasts(n)
      ensures Faulty(0) <==> exists k: nat :: k < n && Numbered(k).error
    {
      FaultyFrom(n, 0);
    }

    lemma {:induction false} FaultyFrom(n: nat, k: nat)
      requires Scannable() && Lasts(n) && k < n
      ensures Faulty(Position(k)) <==> exists m: nat :: k <= m < n && Numbered(m).error
      decreases n - k
    {
      assert Numbered(k).ended <==> k == n - 1;
      if k < n - 1 {
        FaultyFrom(n, k + 1);
        assert Position(k + 1) == Numbered(k).next;
      }
    }

    /** Every file has such a list. */
    lemma ScheduleExists() returns (n: nat, ks: seq<nat>)
      requires Scannable()
      ensures Schedule(n, ks)
    {
      n := LastStep(0);
      ks := [];
      hide Lasts, Numbered;
      for k := 0 to n
        invariant Lists(0, k, ks)
      {
        if Numbered(k).token.Some? {
          ks := ks + [k];
        }
      }
    }

    lemma {:induction false} LastStep(k: nat) returns (n: nat)
      requires Scannable() && forall m: nat :: m < k ==> !Numbered(m).ended
      ensures Lasts(n)
      decreases if Position(k) <= len then len - Position(k) + 1 else 0
    {
      if Numbered(k).ended {
        n := k + 1;
      } else {
        n := LastStep(k + 1);
      }
    }
  }

  /** The contents of the slots that the cursors r to w - 1 fall on. */
  ghost function Between(slots: seq<Token>, r: nat, w: nat): (ts: seq<Token>)
    requires |slots| == STREAM_DATA_COUNT && r <= w
    ensures |ts| == w - r
  {
    seq(w - r, i requires 0 <= i => slots[(r + i) % STREAM_DATA_COUNT])
  }

  /** A window that is not full grows at the end, and keeps the tokens it has. */
  lemma BetweenPush(slots: seq<Token>, r: nat, w: nat, token: Token)
    requires |slots| == STREAM_DATA_COUNT && r <= w < r + STREAM_DATA_COUNT
    ensures Between(slots[w % STREAM_DATA_COUNT := token], r, w + 1) == Between(slots, r, w) + [token]
  {
  }

  lemma BetweenPop(slots: seq<Token>, r: nat, w: nat)
    requires |slots| == STREAM_DATA_COUNT && r < w
    ensures Between(slots, r + 1, w) == Between(slots, r, w)[1..]
  {
  }

  lemma BetweenAt(slots: seq<Token>, r: nat, w: nat, k: nat, token: Token)
    requires |slots| == STREAM_DATA_COUNT && r + k < w && token == slots[(r + k) % STREAM_DATA_COUNT]
    ensures Between(slots, r, w)[k] == token
  {
  }

  lemma SuffixStep(full: seq<Token>, r: nat, window: seq<Token>, rest: seq<Token>)
    requires r <= |full| && full[r..] == window + rest && window != []
    ensures r < |full| && full[r + 1..] == window[1..] + rest && full[r + 1..] == full[r..][1..]
  {
    assert full[r + 1..] == full[r..][1..];
    assert (window + rest)[1..] == window[1..] + rest;
  }

  class Stream {
    const source: Source
    const items: array<Token>
    var readCursor: nat
    var writeCursor: nat
    var current: nat
    var ended: bool
    var hasError: bool

    /** The tokens in the window. */
    ghost function Window(): seq<Token>
      requires items.Length == STREAM_DATA_COUNT && readCursor <= writeCursor
      reads this, items
    {
      Between(items[..], readCursor, writeCursor)
    }

    /** The window holds between 0 and 512 tokens, and they and what is still to be scanned are
        the tokens of the file that come after the first readCursor ones. */
    ghost predicate Valid()
      reads this, items
    {
      && items.Length == STREAM_DATA_COUNT && source.Scannable()
      && readCursor <= writeCursor <= readCursor + STREAM_DATA_COUNT
      && readCursor <= |source.Tokens(0)|
      && source.Tokens(0)[readCursor..] == Window() + (if ended then [] else source.Tokens(current))
      && (source.Faulty(0) <==> hasError || (!ended && source.Faulty(current)))
    }

    /** ... and the process has not ended. */
    ghost predicate Running()
      reads this, items
    {
      Valid() && !hasError
    }

    /** The tokens not yet read. */
    ghost function Remaining(): (ts: seq<Token>)
      requires Valid()
      reads this, items
      ensures Eof !in ts
    {
      source.Tokens(0)[readCursor..]
    }

    /** The token k places ahead, TK_EOF beyond the last one. */
    ghost function Ahead(k: nat): Token
      requires Valid()
      reads this, items
    {
      if k < |Remaining()| then Remaining()[k] else Eof
    }

    /** By positions: the tokens not yet read are those of the steps that are left, and the token k
        places ahead is that of the step k places on. */
    lemma RemainingScheduled(n: nat, ks: seq<nat>)
      requires Valid() && source.Schedule(n, ks)
      ensures readCursor <= |ks| && Remaining() == source.Lexemes(ks)[readCursor..]
      ensures forall k: nat :: Ahead(k) == source.Listed(ks, readCursor + k)
    {
      source.TokensScheduled(n, ks);
    }

    lemma AheadScheduled(k: nat)
      requires Valid()
      ensures forall n, ks :: source.Schedule(n, ks) ==> Ahead(k) == source.Listed(ks, readCursor + k)
    {
      forall n, ks | source.Schedule(n, ks)
        ensures Ahead(k) == source.Listed(ks, readCursor + k)
      {
        RemainingScheduled(n, ks);
      }
    }

    lemma AheadInWindow(k: nat)
      requires Valid() && readCursor + k < writeCursor
      ensures Ahead(k) == items[(readCursor + k) % STREAM_DATA_COUNT]
    {
      hide Between, Source.Tokens, Source.Faulty, Source.Scannable;
      BetweenAt(items[..], readCursor, writeCursor, k, items[(readCursor + k) % STREAM_DATA_COUNT]);
    }

    lemma AheadOfEnd(k: nat)
      requires Valid() && ended && writeCursor <= readCursor + k
      ensures Ahead(k) == Eof
    {
      hide Between, Source.Tokens, Source.Faulty, Source.Scannable;
    }

    constructor (source: Source)
      requires source.Scannable()
      ensures Running() && fresh(items) && this.source == source && Remaining() == source.Tokens(0) && !ended
    {
      this.source := source;
      items := new Token[STREAM_DATA_COUNT];
      readCursor, writeCursor, current := 0, 0, 0;
      ended, hasError := false, false;
    }

    /** write_cursor - read_cursor, a size_t. */
    function Unread(): (n: nat)
      reads this
      ensures readCursor <= writeCursor < readCursor + SIZE_T ==> n == writeCursor - readCursor
      ensures readCursor == writeCursor + 1 ==> n == SIZE_T - 1
    {
      (writeCursor - readCursor) % SIZE_T
    }

    predicate IsEmpty()
      reads this
    {
      writeCursor <= readCursor
    }

    method AddToken(token: Token)
      requires items.Length == STREAM_DATA_COUNT && readCursor <= writeCursor < readCursor + STREAM_DATA_COUNT
      modifies this`writeCursor, items
      ensures writeCursor == old(writeCursor) + 1
      ensures Window() == old(Window()) + [token]
    {
      BetweenPush(items[..], readCursor, writeCursor, token);
      items[writeCursor % STREAM_DATA_COUNT] := token;
      writeCursor := writeCursor + 1;
    }

    /** One round of start_scanning's loop. */
    method ScanLexeme()
      requires Valid() && !ended && writeCursor < readCursor + STREAM_DATA_COUNT
      modifies this`writeCursor, this`current, this`ended, this`hasError, items
      ensures Valid() && (ended || old(current) < current <= source.len)
    {
      var step := source.scan(current);
      ghost var window, rest := Window(), if step.ended then [] else source.Tokens(step.next);
      assert source.Tokens(0)[readCursor..] == window + (source.Lexeme(current) + rest);
      if step.token.Some? {
        AddToken(step.token.value);
      }
      assert Window() == window + source.Lexeme(current);
      Regroup(window, source.Lexeme(current), rest);
      current, ended, hasError := step.next, step.ended, hasError || step.error;
    }

    /** Fills the window, or reaches the end of the file. */
    method StartScanning() returns (r: Result<(), Exit>)
      requires Valid()
      modifies this`writeCursor, this`current, this`ended, this`hasError, items
      ensures Valid() && (ended || writeCursor - readCursor == STREAM_DATA_COUNT)
      ensures r == if hasError then Err(BadLexeme) else Ok(())
    {
      while !ended && Unread() < STREAM_DATA_COUNT
        invariant Valid()
        decreases !ended, if current <= source.len then source.len - current else 0
      {
        ScanLexeme();
      }
      r := if hasError then Err(BadLexeme) else Ok(());
    }

    method Peek() returns (r: Result<Token, Exit>)
      requires Running()
      modifies this`writeCursor, this`current, this`ended, this`hasError, items
      ensures Valid() && r == if hasError then Err(BadLexeme) else Ok(Ahead(0))
      ensures r.Ok? ==> forall n, ks :: source.Schedule(n, ks) ==> r.value == source.Listed(ks, readCursor)
      ensures r.Ok? && IsEmpty() ==> ended && Remaining() == []
    {
      if IsEmpty() {
        var _ :- StartScanning();
        if IsEmpty() {
          AheadOfEnd(0);
          AheadScheduled(0);
          return Ok(Eof);
        }
      }
      r := Ok(items[readCursor % STREAM_DATA_COUNT]);
      AheadInWindow(0);
      AheadScheduled(0);
    }

    method PeekNext() returns (r: Result<Token, Exit>)
      requires Running()
      modifies this`writeCursor, this`current, this`ended, this`hasError, items
      ensures Valid() && r == if hasError then Err(BadLexeme) else Ok(Ahead(1))
      ensures r.Ok? ==> forall n, ks :: source.Schedule(n, ks) ==> r.value == source.Listed(ks, readCursor + 1)
    {
      hide Between, Ahead, Remaining, Source.Tokens, Source.Faulty, Source.Scannable;
      if IsEmpty() {
        var _ :- StartScanning();
      }
      if Unread() < 2 {
        var _ :- StartScanning();
        if Unread() < 2 {
          AheadOfEnd(1);
          AheadScheduled(1);
          return Ok(Eof);
        }
      }
      r := Ok(items[(readCursor + 1) % STREAM_DATA_COUNT]);
      AheadInWindow(1);
      AheadScheduled(1);
    }

    /** token_stream_ended. */
    predicate Finished()
      reads this
    {
      ended && IsEmpty()
    }

    /** The read cursor passes the first token of the window. */
    method ReadOne()
      requires Valid()
      modifies this`readCursor
      ensures readCursor == old(readCursor) + 1
      ensures old(!IsEmpty()) ==> Valid() && old(Remaining()) != [] && Remaining() == old(Remaining())[1..]
    {
      if readCursor < writeCursor {
        SuffixStep(source.Tokens(0), readCursor, Window(), if ended then [] else source.Tokens(current));
        BetweenPop(items[..], readCursor, writeCursor);
      }
      readCursor := readCursor + 1;
    }

    /** Reading past the last token is harmless only once the end has been seen: otherwise the
        read cursor overtakes the write cursor, and the count of unread tokens wraps round. */
    method Advance() returns (r: Result<Token, Exit>)
      requires Running()
      modifies this`readCursor, this`writeCursor, this`current, this`ended, this`hasError, items
      ensures r == if hasError then Err(BadLexeme) else if old(Finished()) then Ok(Nothing) else Ok(old(Ahead(0)))
      ensures r.Ok? && !old(Finished()) ==>
                forall n, ks :: source.Schedule(n, ks) ==> r.value == source.Listed(ks, old(readCursor))
      ensures r.Err? ==> Valid()
      ensures r.Ok? ==> (Valid() <==> old(Remaining()) != [] || old(ended))
      ensures r.Ok? && Valid() ==> Remaining() == if old(Remaining()) == [] then [] else old(Remaining())[1..]
      ensures r.Ok? && !Valid() ==> readCursor == writeCursor + 1 && Unread() == SIZE_T - 1
    {
      if Finished() {
        return Ok(Nothing);
      }
      if IsEmpty() {
        var _ :- StartScanning();
      }
      var result :- Peek();
      ReadOne();
      r := Ok(result);
    }
  }

  /** On a file without tokens the first advance already moves the read cursor past the write
      cursor. */
  method AdvanceAtEnd() returns (stream: Stream, r: Result<Token, Exit>)
    ensures stream.source.Scannable() && stream.source.Tokens(0) == []
    ensures r == Ok(Eof) && !stream.Valid()
    ensures stream.readCursor == stream.writeCursor + 1 && stream.Unread() == SIZE_T - 1
  {
    var source := Source(0, (p: nat) => Step(None, p, true, false));
    stream := new Stream(source);
    assert source.scan(0) == Step(None, 0, true, false);
    assert source.Tokens(0) == [] && !source.Faulty(0);
    r := stream.Advance();
  }
}
