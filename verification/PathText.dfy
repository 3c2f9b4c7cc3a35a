// Path strings: how a string splits into segments, how segments are written back, and what the
// path functions of source/cwalk.c should produce. A C string is a `string` here; position |p|
// is where its terminating zero stands.
module PathText {
  import opened PathSpec
  import opened Sequences

  const SEPARATOR := '/'

  /** A segment of p: the characters p[begin..end]. */
  datatype Span = Span(begin: nat, end: nat)

  /** cwk_path_get_root: the length of the root, a leading separator. */
  function Root(p: string): nat {
    if p != "" && p[0] == SEPARATOR then 1 else 0
  }

  /** The first position at or after i that is not a separator. */
  function SkipSeparators(p: string, i: nat): (j: nat)
    requires i <= |p|
    ensures i <= j <= |p|
    ensures forall k :: i <= k < j ==> p[k] == SEPARATOR
    ensures j < |p| ==> p[j] != SEPARATOR
    decreases |p| - i
  {
    if i < |p| && p[i] == SEPARATOR then SkipSeparators(p, i + 1) else i
  }

  /** The first position at or after i that is a separator, or the end. */
  function NextStop(p: string, i: nat): (j: nat)
    requires i <= |p|
    ensures i <= j <= |p|
    ensures forall k :: i <= k < j ==> p[k] != SEPARATOR
    ensures j < |p| ==> p[j] == SEPARATOR
    decreases |p| - i
  {
    if i < |p| && p[i] != SEPARATOR then NextStop(p, i + 1) else i
  }

  /** The segments of p from position i on. */
  function Spans(p: string, i: nat): (s: seq<Span>)
    requires i <= |p|
    decreases |p| - i
  {
    var b := SkipSeparators(p, i);
    if b == |p| then [] else var e := NextStop(p, b); [Span(b, e)] + Spans(p, e)
  }

  /** The spans are exactly the maximal separator-free stretches, in order. */
  ghost predicate Tiles(p: string, i: nat, s: seq<Span>)
    requires i <= |p|
  {
    && (forall k :: 0 <= k < |s| ==> i <= s[k].begin < s[k].end <= |p|)
    && (forall k, c :: 0 <= k < |s| && s[k].begin <= c < s[k].end ==> p[c] != SEPARATOR)
    && (forall k :: 0 < k < |s| ==> s[k - 1].end < s[k].begin)
    && (forall k, c :: 0 < k < |s| && s[k - 1].end <= c < s[k].begin ==> p[c] == SEPARATOR)
    && (s != [] ==> forall c :: i <= c < s[0].begin ==> p[c] == SEPARATOR)
    && (forall k :: 0 <= k < |s| && s[k].end < |p| ==> p[s[k].end] == SEPARATOR)
  }

  lemma {:induction false} SpansTile(p: string, i: nat)
    requires i <= |p|
    ensures Tiles(p, i, Spans(p, i))
    decreases |p| - i
  {
    var b := SkipSeparators(p, i);
    if b < |p| {
      SpansTile(p, NextStop(p, b));
      TilesCons(p, i, b, NextStop(p, b), Spans(p, NextStop(p, b)));
    }
  }

  lemma TilesCons(p: string, i: nat, b: nat, e: nat, rest: seq<Span>)
    requires i <= b < e <= |p| && (forall c :: i <= c < b ==> p[c] == SEPARATOR)
    requires (forall c :: b <= c < e ==> p[c] != SEPARATOR) && (e < |p| ==> p[e] == SEPARATOR)
    requires Tiles(p, e, rest)
    ensures Tiles(p, i, [Span(b, e)] + rest)
  {
    TilesFront(p, i, rest, [Span(b, e)] + rest);
  }

  lemma TilesFront(p: string, i: nat, rest: seq<Span>, s: seq<Span>)
    requires |s| == |rest| + 1 && forall k :: 0 < k < |s| ==> s[k] == rest[k - 1]
    requires i <= s[0].begin < s[0].end <= |p| && (forall c :: i <= c < s[0].begin ==> p[c] == SEPARATOR)
    requires forall c :: s[0].begin <= c < s[0].end ==> p[c] != SEPARATOR
    requires (s[0].end < |p| ==> p[s[0].end] == SEPARATOR) && Tiles(p, s[0].end, rest)
    ensures Tiles(p, i, s)
  {
    if rest != [] {
      assert p[rest[0].begin] != SEPARATOR;
    }
  }

  /** Span k + 1 is found by skipping the separators behind span k. */
  lemma NextSpan(p: string, k: nat)
    requires k < |Spans(p, 0)|
    ensures Spans(p, 0)[k].end <= |p|
    ensures var b := SkipSeparators(p, Spans(p, 0)[k].end);
      && (k + 1 < |Spans(p, 0)| <==> b < |p|)
      && (b < |p| ==> Spans(p, 0)[k + 1] == Span(b, NextStop(p, b)))
  {
    SpansAfter(p, 0, k);
    var rest := Spans(p, Spans(p, 0)[k].end);
    assert Spans(p, 0)[k + 1..] == rest;
    if rest != [] { assert Spans(p, 0)[k + 1] == rest[0]; }
  }

  /** What stands around span k. */
  lemma SpanEdges(p: string, k: nat)
    requires k < |Spans(p, 0)|
    ensures var s := Spans(p, 0)[k];
      && Root(p) <= s.begin < s.end <= |p|
      && (forall c :: s.begin <= c < s.end ==> p[c] != SEPARATOR)
      && (s.begin > 0 ==> p[s.begin - 1] == SEPARATOR) && (s.end < |p| ==> p[s.end] == SEPARATOR)
      && var before := if k == 0 then 0 else Spans(p, 0)[k - 1].end;
         before <= s.begin && forall c :: before <= c < s.begin ==> p[c] == SEPARATOR
  {
    SpansTile(p, 0);
    var s := Spans(p, 0);
    assert p[s[k].begin] != SEPARATOR;
    if k > 0 { assert s[k - 1].end < s[k].begin; }
  }

  /** What follows span k are the spans from its end on. */
  lemma {:induction false} SpansAfter(p: string, i: nat, k: nat)
    requires i <= |p| && k < |Spans(p, i)|
    ensures Spans(p, i)[k].end <= |p|
    ensures Spans(p, i)[k + 1..] == Spans(p, Spans(p, i)[k].end)
    decreases k
  {
    if k > 0 {
      SpansAfter(p, NextStop(p, SkipSeparators(p, i)), k - 1);
    }
  }

  function Text(p: string, s: Span): string {
    if s.begin <= s.end <= |p| then p[s.begin..s.end] else ""
  }

  /** The texts of those segments. */
  function SegmentsFrom(p: string, i: nat): seq<string>
    requires i <= |p|
    decreases |p| - i
  {
    var b := SkipSeparators(p, i);
    if b == |p| then [] else var e := NextStop(p, b); [p[b..e]] + SegmentsFrom(p, e)
  }

  function Segments(p: string): seq<string> {
    SegmentsFrom(p, 0)
  }

  lemma {:induction false} SpanTexts(p: string, i: nat)
    requires i <= |p|
    ensures |SegmentsFrom(p, i)| == |Spans(p, i)|
    ensures forall k :: 0 <= k < |Spans(p, i)| ==> SegmentsFrom(p, i)[k] == Text(p, Spans(p, i)[k])
    decreases |p| - i
  {
    var b := SkipSeparators(p, i);
    if b < |p| {
      SpanTexts(p, NextStop(p, b));
    }
  }

  function AllSegments(paths: seq<string>): seq<string> {
    if paths == [] then [] else Segments(paths[0]) + AllSegments(paths[1..])
  }

  /** How many segments the first i paths have. */
  function Offset(paths: seq<string>, i: nat): nat
    requires i <= |paths|
  {
    |AllSegments(paths[..i])|
  }

  lemma {:induction false} AllSegmentsAppend(a: seq<string>, b: seq<string>)
    ensures AllSegments(a + b) == AllSegments(a) + AllSegments(b)
  {
    hide Segments;
    if a == [] {
      assert a + b == b;
    } else {
      AllSegmentsAppend(a[1..], b);
      assert (a + b)[1..] == a[1..] + b && (a + b)[0] == a[0];
      Regroup(Segments(a[0]), AllSegments(a[1..]), AllSegments(b));
    }
  }

  /** Where the segments of path i stand among all segments. */
  lemma OffsetStep(paths: seq<string>, i: nat)
    requires i < |paths|
    ensures Offset(paths, i + 1) == Offset(paths, i) + |Spans(paths[i], 0)| <= |AllSegments(paths)|
    ensures forall m :: 0 <= m < |Spans(paths[i], 0)| ==>
              AllSegments(paths)[Offset(paths, i) + m] == Text(paths[i], Spans(paths[i], 0)[m])
  {
    var before, after := paths[..i], paths[i + 1..];
    SpanTexts(paths[i], 0);
    OnePath(paths[i]);
    AllSegmentsAppend(before, [paths[i]]);
    AllSegmentsAppend(before + [paths[i]], after);
    assert paths[..i + 1] == before + [paths[i]];
    assert paths == before + [paths[i]] + after;
  }

  lemma OnePath(p: string)
    ensures AllSegments([p]) == Segments(p)
  {
    assert Segments(p) + [] == Segments(p);
  }

  lemma OffsetEnd(paths: seq<string>)
    ensures Offset(paths, |paths|) == |AllSegments(paths)|
  {
    assert paths[..|paths|] == paths;
  }

  // ----- writing segments back -----

  function Join(segs: seq<string>): string {
    if segs == [] then ""
    else if |segs| == 1 then segs[0]
    else Join(segs[..|segs| - 1]) + [SEPARATOR] + segs[|segs| - 1]
  }

  /** What joining and normalising a list of paths should give. A list without any segment gives
      its root alone, and so the empty string when it has no root; a relative list whose segments
      all cancel gives ".". */
  function Normalized(paths: seq<string>): string
    requires paths != []
  {
    var absolute := Root(paths[0]) == 1;
    var segs := AllSegments(paths);
    var kept := PushAll([], segs, absolute);
    if !absolute && segs != [] && kept == [] then "." else paths[0][..Root(paths[0])] + Join(kept)
  }

  /** A text that can be a segment. */
  ghost predicate IsSegment(text: string) {
    text != "" && forall c :: 0 <= c < |text| ==> text[c] != SEPARATOR
  }

  ghost predicate AreSegments(segs: seq<string>) {
    forall k :: 0 <= k < |segs| ==> IsSegment(segs[k])
  }

  lemma SegmentsAreSegments(p: string)
    ensures AreSegments(Segments(p))
  {
    SpansTile(p, 0);
    SpanTexts(p, 0);
  }

  lemma {:induction false} AllSegmentsAreSegments(paths: seq<string>)
    ensures AreSegments(AllSegments(paths))
  {
    if paths != [] {
      SegmentsAreSegments(paths[0]);
      AllSegmentsAreSegments(paths[1..]);
    }
  }

  lemma {:induction false} PushAllSegments(stack: seq<string>, segs: seq<string>, absolute: bool)
    requires AreSegments(stack) && AreSegments(segs)
    ensures AreSegments(PushAll(stack, segs, absolute))
  {
    if segs != [] {
      PushAllSegments(stack, segs[..|segs| - 1], absolute);
    }
  }

  // ----- splitting what was written -----

  lemma FromHere(p: string, i: nat)
    requires i <= |p|
    ensures var b := SkipSeparators(p, i);
      SegmentsFrom(p, i) == if b == |p| then [] else [p[b..NextStop(p, b)]] + SegmentsFrom(p, NextStop(p, b))
  {
  }

  /** The segments from position i on do not depend on what stands before it. */
  lemma {:induction false} SegmentsShift(pre: string, p: string, i: nat)
    requires i <= |p|
    ensures SegmentsFrom(pre + p, |pre| + i) == SegmentsFrom(p, i)
    decreases |p| - i
  {
    hide SkipSeparators, NextStop, SegmentsFrom;
    FromHere(pre + p, |pre| + i);
    FromHere(p, i);
    SkipShift(pre, p, i);
    var b := SkipSeparators(p, i);
    if b < |p| {
      StopShift(pre, p, b);
      var e := NextStop(p, b);
      SegmentsShift(pre, p, e);
      SliceShift(pre, p, b, e);
    }
  }

  lemma SliceShift(pre: string, p: string, b: nat, e: nat)
    requires b <= e <= |p|
    ensures (pre + p)[|pre| + b..|pre| + e] == p[b..e]
  {
  }

  lemma {:induction false} SkipShift(pre: string, p: string, i: nat)
    requires i <= |p|
    ensures SkipSeparators(pre + p, |pre| + i) == |pre| + SkipSeparators(p, i)
    decreases |p| - i
  {
    if i < |p| && p[i] == SEPARATOR {
      SkipShift(pre, p, i + 1);
    }
  }

  lemma {:induction false} StopShift(pre: string, p: string, i: nat)
    requires i <= |p|
    ensures NextStop(pre + p, |pre| + i) == |pre| + NextStop(p, i)
    decreases |p| - i
  {
    if i < |p| && p[i] != SEPARATOR {
      StopShift(pre, p, i + 1);
    }
  }

  /** One leading segment, then the end or a separator. */
  lemma FirstSegment(text: string, rest: string)
    requires IsSegment(text) && (rest == "" || rest[0] == SEPARATOR)
    ensures Segments(text + rest) == [text] + Segments(rest)
  {
    var p := text + rest;
    assert p[0] == text[0];
    StopAt(p, 0, |text|);
    SegmentsShift(text, rest, 0);
    assert p[0..|text|] == text && SkipSeparators(p, 0) == 0;
  }

  lemma {:induction false} StopAt(p: string, i: nat, e: nat)
    requires i <= e <= |p| && (forall c :: i <= c < e ==> p[c] != SEPARATOR) && (e == |p| || p[e] == SEPARATOR)
    ensures NextStop(p, i) == e
    decreases e - i
  {
    if i < e {
      StopAt(p, i + 1, e);
    }
  }

  lemma LeadingSeparator(p: string)
    ensures Segments([SEPARATOR] + p) == Segments(p)
  {
    SegmentsShift([SEPARATOR], p, 0);
    var q := [SEPARATOR] + p;
    assert SkipSeparators(q, 0) == SkipSeparators(q, 1);
  }

  /** Join written from the front. */
  lemma {:induction false} JoinFront(segs: seq<string>)
    requires |segs| > 1
    ensures Join(segs) == segs[0] + [SEPARATOR] + Join(segs[1..])
  {
    var front := segs[..|segs| - 1];
    if |segs| > 2 {
      JoinFront(front);
      assert front[1..] == segs[1..][..|segs| - 2];
    }
  }

  lemma NoSegments()
    ensures Segments("") == []
  {
  }

  /** Segments joined and split again are the same segments. */
  lemma {:induction false} SplitJoin(segs: seq<string>)
    requires AreSegments(segs)
    ensures Segments(Join(segs)) == segs
  {
    hide Segments;
    if segs == [] {
      NoSegments();
    } else if |segs| == 1 {
      FirstSegment(segs[0], "");
      NoSegments();
      assert segs[0] + "" == segs[0];
    } else if |segs| > 1 {
      var rest := Join(segs[1..]);
      JoinFront(segs);
      SplitJoin(segs[1..]);
      LeadingSeparator(rest);
      FirstSegment(segs[0], [SEPARATOR] + rest);
      assert segs[0] + ([SEPARATOR] + rest) == segs[0] + [SEPARATOR] + rest;
      assert [segs[0]] + segs[1..] == segs;
    }
  }

  // ----- normalisation: its normal form, and that it changes nothing twice -----

  function Absolute(paths: seq<string>): bool
    requires paths != []
  {
    Root(paths[0]) == 1
  }

  /** The segments of the normalised path. */
  function Resolved(paths: seq<string>): seq<string>
    requires paths != []
  {
    PushAll([], AllSegments(paths), Absolute(paths))
  }

  lemma ResolvedSegments(paths: seq<string>)
    requires paths != []
    ensures AreSegments(Resolved(paths)) && NormalForm(Resolved(paths), Absolute(paths))
  {
    AllSegmentsAreSegments(paths);
    PushAllSegments([], AllSegments(paths), Absolute(paths));
    PushAllNormalForm(AllSegments(paths), Absolute(paths));
  }

  lemma {:induction false} JoinStart(segs: seq<string>)
    requires AreSegments(segs) && segs != []
    ensures Join(segs) != "" && Join(segs)[0] == segs[0][0] && Root(Join(segs)) == 0
  {
    if |segs| > 1 {
      JoinStart(segs[..|segs| - 1]);
    }
  }

  lemma Dot()
    ensures Segments(".") == ["."] && Root(".") == 0
  {
    FirstSegment(".", "");
    assert "." + "" == ".";
  }

  /** A normalised path, read again: same root, and its segments are the resolved ones, or the
      single "." that stands for none. */
  lemma ReadBack(paths: seq<string>)
    requires paths != []
    ensures Root(Normalized(paths)) == Root(paths[0])
    ensures Segments(Normalized(paths)) ==
            if !Absolute(paths) && AllSegments(paths) != [] && Resolved(paths) == [] then ["."] else Resolved(paths)
  {
    ResolvedSegments(paths);
    var kept := Resolved(paths);
    var joined := Join(kept);
    SplitJoin(kept);
    LeadingSeparator(joined);
    Dot();
    if kept != [] {
      JoinStart(kept);
    }
    assert "" + joined == joined;
    assert Absolute(paths) ==> paths[0][..1] == [SEPARATOR];
  }

  /** Normalising a normalised path changes nothing. */
  lemma Idempotent(paths: seq<string>)
    requires paths != []
    ensures Normalized([Normalized(paths)]) == Normalized(paths)
  {
    hide Segments, Join, NormalForm;
    var out := Normalized(paths);
    ReadBack(paths);
    OnePath(out);
    ResolvedSegments(paths);
    NormalFormFixed(Resolved(paths), Absolute(paths));
    PushDot([], Absolute(paths));
  }

  lemma PushDot(stack: seq<string>, absolute: bool)
    ensures PushAll(stack, ["."], absolute) == stack
  {
    assert ["."][..0] == [];
    assert PushAll(stack, ["."], absolute) == Push(PushAll(stack, [], absolute), ".", absolute);
  }

  /** The normal form of the output, for every list of paths: "." alone, or the root followed by
      non-empty segments joined by single separators, `..` only as a leading run of a relative
      path, "." nowhere. It is empty only if there is neither a root nor a segment. */
  lemma OutputNormalForm(paths: seq<string>)
    requires paths != []
    ensures Normalized(paths) == "." ||
            exists kept :: AreSegments(kept) && NormalForm(kept, Absolute(paths)) &&
              Normalized(paths) == (if Absolute(paths) then "/" else "") + Join(kept)
    ensures Normalized(paths) == "" <==> !Absolute(paths) && AllSegments(paths) == []
  {
    ResolvedSegments(paths);
    if Resolved(paths) != [] {
      JoinStart(Resolved(paths));
    }
    assert Absolute(paths) ==> paths[0][..1] == "/";
    assert AllSegments(paths) == [] ==> Resolved(paths) == [];
  }

  // ----- relative paths, and the way back -----

  /** Length of the longest common prefix. */
  function Common(a: seq<string>, b: seq<string>): (c: nat)
    ensures c <= |a| && c <= |b| && a[..c] == b[..c]
    ensures forall k :: 0 <= k < c ==> a[k] == b[k]
    ensures c < |a| && c < |b| ==> a[c] != b[c]
  {
    if a != [] && b != [] && a[0] == b[0] then 1 + Common(a[1..], b[1..]) else 0
  }

  function Ups(n: nat): seq<string> {
    seq(n, _ => "..")
  }

  lemma {:induction false} CommonIs(done: seq<string>, a: seq<string>, b: seq<string>)
    requires a == [] || b == [] || a[0] != b[0]
    ensures Common(done + a, done + b) == |done|
  {
    if done == [] {
      assert done + a == a && done + b == b;
    } else {
      assert (done + a)[1..] == done[1..] + a && (done + b)[1..] == done[1..] + b;
      CommonIs(done[1..], a, b);
    }
  }

  /** Segments written with a separator behind each. */
  function Trail(segs: seq<string>): string {
    if segs == [] then "" else Trail(segs[..|segs| - 1]) + segs[|segs| - 1] + [SEPARATOR]
  }

  lemma {:induction false} TrailJoin(segs: seq<string>)
    requires segs != []
    ensures Trail(segs) == Join(segs) + [SEPARATOR]
  {
    if |segs| > 1 {
      TrailJoin(segs[..|segs| - 1]);
    } else {
      assert "" + segs[0] == segs[0];
    }
  }

  lemma TrailStep(segs: seq<string>, text: string)
    ensures Trail(segs + [text]) == Trail(segs) + text + [SEPARATOR]
  {
    assert (segs + [text])[..|segs|] == segs;
  }

  /** What cwk_path_get_relative should give: nothing for different roots, else one `..` for
      each base segment past the common part, and then the rest of the path. */
  function RelativeSegments(base: string, path: string): seq<string> {
    var b, p := Resolved([base]), Resolved([path]);
    var c := Common(b, p);
    Ups(|b| - c) + p[c..]
  }

  function Relative(base: string, path: string): string {
    if Root(base) != Root(path) then ""
    else if RelativeSegments(base, path) == [] then "."
    else Join(RelativeSegments(base, path))
  }

  /** The `..` at the front. */
  function LeadingUps(segs: seq<string>): (n: nat)
    ensures n <= |segs|
    ensures forall i :: 0 <= i < n ==> segs[i] == ".."
    ensures n < |segs| ==> segs[n] != ".."
  {
    if segs != [] && segs[0] == ".." then 1 + LeadingUps(segs[1..]) else 0
  }

  lemma {:induction false} PushNormals(stack: seq<string>, segs: seq<string>, absolute: bool)
    requires forall i :: 0 <= i < |segs| ==> KindOf(segs[i]) == Normal
    ensures PushAll(stack, segs, absolute) == stack + segs
  {
    if segs != [] {
      PushNormals(stack, segs[..|segs| - 1], absolute);
    }
  }

  /** Going up pops the normal segments first; what is left to go up then piles up. */
  lemma {:induction false} PushUps(backs: seq<string>, normals: seq<string>, n: nat, absolute: bool)
    requires forall i :: 0 <= i < |backs| ==> KindOf(backs[i]) == Back
    requires forall i :: 0 <= i < |normals| ==> KindOf(normals[i]) == Normal
    requires absolute ==> n <= |normals|
    ensures PushAll(backs + normals, Ups(n), absolute) == AfterUps(backs, normals, n)
  {
    if n == 0 {
      assert normals[..|normals|] == normals;
    } else {
      PushUps(backs, normals, n - 1, absolute);
      OneMoreUp(backs + normals, n, absolute);
      hide PushAll, Push, Ups;
      if n <= |normals| {
        PushUpPops(backs, normals, n, absolute);
      } else {
        PushUpPiles(backs, normals, n);
      }
    }
  }

  function AfterUps(backs: seq<string>, normals: seq<string>, n: nat): seq<string> {
    if n <= |normals| then backs + normals[..|normals| - n] else backs + Ups(n - |normals|)
  }

  lemma OneMoreUp(stack: seq<string>, n: nat, absolute: bool)
    requires n > 0
    ensures PushAll(stack, Ups(n), absolute) == Push(PushAll(stack, Ups(n - 1), absolute), "..", absolute)
  {
    assert Ups(n)[..n - 1] == Ups(n - 1);
  }

  lemma PushUpPops(backs: seq<string>, normals: seq<string>, n: nat, absolute: bool)
    requires 0 < n <= |normals| && forall i :: 0 <= i < |normals| ==> KindOf(normals[i]) == Normal
    ensures Push(AfterUps(backs, normals, n - 1), "..", absolute) == AfterUps(backs, normals, n)
  {
    var k := |normals| - n + 1;
    var stack := backs + normals[..k];
    assert stack[|stack| - 1] == normals[k - 1];
    assert stack[..|stack| - 1] == backs + normals[..k - 1];
  }

  lemma PushUpPiles(backs: seq<string>, normals: seq<string>, n: nat)
    requires n > |normals| && forall i :: 0 <= i < |backs| ==> KindOf(backs[i]) == Back
    ensures Push(AfterUps(backs, normals, n - 1), "..", false) == AfterUps(backs, normals, n)
  {
    var stack := AfterUps(backs, normals, n - 1);
    if stack != [] {
      assert KindOf(stack[|stack| - 1]) == Back;
    }
    assert stack + [".."] == AfterUps(backs, normals, n);
  }

  lemma NormalFormSplits(segs: seq<string>, absolute: bool)
    requires NormalForm(segs, absolute)
    ensures PathSpec.Split(segs, LeadingUps(segs)) && (absolute ==> LeadingUps(segs) == 0)
  {
    var backs :| 0 <= backs <= |segs| && PathSpec.Split(segs, backs) && (absolute ==> backs == 0);
    var edge := if backs < |segs| then KindOf(segs[backs]) else Normal;
    assert edge == Normal;
  }

  /** A normal form taken apart into its `..` and its normal segments. */
  lemma TakenApart(b: seq<string>, absolute: bool)
    requires NormalForm(b, absolute)
    ensures var n := LeadingUps(b);
      && b[..n] + b[n..] == b && (absolute ==> n == 0)
      && (forall i :: 0 <= i < n ==> b[..n][i] == "..")
      && (forall i :: 0 <= i < |b| - n ==> KindOf(b[n..][i]) == Normal)
  {
    hide NormalForm, LeadingUps;
    NormalFormSplits(b, absolute);
    SplitSlices(b, LeadingUps(b));
  }

  lemma SplitSlices(b: seq<string>, n: nat)
    requires PathSpec.Split(b, n) && forall i :: 0 <= i < n ==> b[i] == ".."
    ensures b[..n] + b[n..] == b
    ensures forall i :: 0 <= i < n ==> b[..n][i] == ".."
    ensures forall i :: 0 <= i < |b| - n ==> KindOf(b[n..][i]) == Normal
  {
  }

  /** Going up from b to its first c segments, when the segments past them are all normal. */
  lemma UpTo(b: seq<string>, c: nat, absolute: bool)
    requires NormalForm(b, absolute) && LeadingUps(b) <= c <= |b|
    ensures PushAll(b, Ups(|b| - c), absolute) == b[..c]
  {
    hide PushAll;
    TakenApart(b, absolute);
    var n := LeadingUps(b);
    PushUps(b[..n], b[n..], |b| - c, absolute);
    assert b[..n] + b[n..][..c - n] == b[..c];
  }

  /** Going up further than the normal segments of b leaves a pile of `..`. */
  lemma UpBeyond(b: seq<string>, c: nat)
    requires NormalForm(b, false) && c < LeadingUps(b)
    ensures var up := PushAll(b, Ups(|b| - c), false);
      |up| > c && forall i :: 0 <= i < |up| ==> up[i] == ".."
  {
    hide PushAll, NormalForm;
    TakenApart(b, false);
    var n := LeadingUps(b);
    PushUps(b[..n], b[n..], |b| - c, false);
  }

  /** Walking from the base along the relative segments reaches the path, when the base has no
      leading `..` beyond the path's. */
  lemma WalkHome(b: seq<string>, p: seq<string>, absolute: bool)
    requires NormalForm(b, absolute) && NormalForm(p, absolute) && LeadingUps(b) <= LeadingUps(p)
    ensures PushAll(b, Ups(|b| - Common(b, p)) + p[Common(b, p)..], absolute) == p
  {
    hide PushAll, NormalForm, LeadingUps, Common, Ups;
    var c := Common(b, p);
    CommonPastUps(b, p);
    UpTo(b, c, absolute);
    PushAllAppend(b, Ups(|b| - c), p[c..], absolute);
    PushRest(p, c, absolute);
  }

  /** Otherwise it ends below a `..` where the path has none. */
  lemma WalkAstray(b: seq<string>, p: seq<string>, absolute: bool)
    requires NormalForm(b, absolute) && NormalForm(p, absolute) && LeadingUps(b) > LeadingUps(p)
    ensures PushAll(b, Ups(|b| - Common(b, p)) + p[Common(b, p)..], absolute) != p
  {
    hide PushAll, NormalForm, LeadingUps, Common, Ups;
    TakenApart(b, absolute);
    TakenApart(p, absolute);
    var c := LeadingUps(p);
    CommonUps(b, p);
    UpBeyond(b, c);
    var up := PushAll(b, Ups(|b| - c), absolute);
    PushAllAppend(b, Ups(|b| - c), p[c..], absolute);
    PushNormals(up, p[c..], absolute);
    EndsAstray(up, p, c);
  }

  lemma EndsAstray(up: seq<string>, p: seq<string>, c: nat)
    requires c < |up| && up[c] == ".." && c <= |p| && (c < |p| ==> p[c] != "..")
    ensures up + p[c..] != p
  {
    assert (up + p[c..])[c] == up[c];
  }

  /** The relative path leads from the base to the path exactly when the base leaves through no more `..`. */
  lemma Walk(base: string, path: string)
    requires Root(base) == Root(path)
    ensures PushAll(Resolved([base]), RelativeSegments(base, path), Root(base) == 1) == Resolved([path]) <==>
            LeadingUps(Resolved([base])) <= LeadingUps(Resolved([path]))
  {
    hide PushAll, NormalForm, LeadingUps, Resolved;
    ResolvedSegments([base]);
    ResolvedSegments([path]);
    var b, p := Resolved([base]), Resolved([path]);
    if LeadingUps(b) <= LeadingUps(p) {
      WalkHome(b, p, Root(base) == 1);
    } else {
      WalkAstray(b, p, Root(base) == 1);
    }
  }

  /** Never more `..` in the base than in the path: then the common part holds all of the base's. */
  lemma CommonPastUps(b: seq<string>, p: seq<string>)
    requires LeadingUps(b) <= LeadingUps(p)
    ensures LeadingUps(b) <= Common(b, p)
  {
  }

  lemma CommonUps(b: seq<string>, p: seq<string>)
    requires LeadingUps(b) > LeadingUps(p)
    ensures Common(b, p) == LeadingUps(p)
  {
  }

  /** A prefix of a normal form takes the rest back on. */
  lemma PushRest(p: seq<string>, c: nat, absolute: bool)
    requires NormalForm(p, absolute) && c <= |p|
    ensures PushAll(p[..c], p[c..], absolute) == p
  {
    PrefixNormalForm(p, c, absolute);
    NormalFormFixed(p[..c], absolute);
    NormalFormFixed(p, absolute);
    PushAllAppend([], p[..c], p[c..], absolute);
    assert p[..c] + p[c..] == p;
  }

  lemma PrefixNormalForm(p: seq<string>, c: nat, absolute: bool)
    requires NormalForm(p, absolute) && c <= |p|
    ensures NormalForm(p[..c], absolute)
  {
    var backs :| 0 <= backs <= |p| && PathSpec.Split(p, backs) && (absolute ==> backs == 0);
    assert PathSpec.Split(p[..c], if backs <= c then backs else c);
  }

  /** The resolved segments of the base joined with the relative path. */
  lemma JoinedWithRelative(base: string, path: string)
    requires Root(base) == Root(path)
    ensures Segments(Relative(base, path)) != []
    ensures Resolved([base, Relative(base, path)]) ==
            PushAll(Resolved([base]), RelativeSegments(base, path), Root(base) == 1)
  {
    var absolute := Root(base) == 1;
    var rel := Relative(base, path);
    var b, p := Resolved([base]), Resolved([path]);
    ResolvedSegments([base]);
    ResolvedSegments([path]);
    Dot();
    SplitJoin(RelativeSegments(base, path));
    OnePath(base);
    OnePath(rel);
    assert [base, rel][1..] == [rel];
    PushAllAppend([], Segments(base), Segments(rel), absolute);
    PushDot(b, absolute);
  }

  /** Normalised strings are equal when the resolved segments are, except that a relative list
      without segments gives the empty string and not ".". */
  lemma SameString(a: seq<string>, b: seq<string>)
    requires a != [] && b != [] && Root(a[0]) == Root(b[0]) && AllSegments(a) != []
    ensures Normalized(a) == Normalized(b) <==>
            Resolved(a) == Resolved(b) && (Absolute(b) || AllSegments(b) != [])
  {
    hide Segments, Join, NormalForm;
    ReadBack(a);
    ReadBack(b);
    NoDot(a);
    NoDot(b);
    assert a[0][..Root(a[0])] == b[0][..Root(b[0])];
    assert AllSegments(b) == [] ==> Resolved(b) == [];
    OutputNormalForm(a);
    OutputNormalForm(b);
  }

  lemma NoDot(paths: seq<string>)
    requires paths != []
    ensures Resolved(paths) != ["."]
  {
    ResolvedSegments(paths);
    NormalFormSplits(Resolved(paths), Absolute(paths));
  }

  /** The way back: joining the base with the relative path gives the normalised path exactly
      when both have the same root, and the path is absolute, or has a segment and leaves through
      at least as many leading `..` as the base. */
  lemma RelativeRoundTrip(base: string, path: string)
    ensures Normalized([base, Relative(base, path)]) == Normalized([path]) <==>
            Root(base) == Root(path) &&
            (Root(path) == 1 ||
             (Segments(path) != [] && LeadingUps(Resolved([base])) <= LeadingUps(Resolved([path]))))
  {
    hide Normalized, Resolved, Segments, Relative;
    if Root(base) == Root(path) {
      SameRootRoundTrip(base, path);
    } else {
      ReadBack([base, Relative(base, path)]);
      ReadBack([path]);
    }
  }

  lemma SameRootRoundTrip(base: string, path: string)
    requires Root(base) == Root(path)
    ensures Normalized([base, Relative(base, path)]) == Normalized([path]) <==>
            Root(path) == 1 ||
            (Segments(path) != [] && LeadingUps(Resolved([base])) <= LeadingUps(Resolved([path])))
  {
    hide Segments, Join, PushAll, NormalForm, Normalized, Relative, RelativeSegments, LeadingUps, PathSpec.Split;
    var absolute := Root(base) == 1;
    var rel := Relative(base, path);
    var b, p := Resolved([base]), Resolved([path]);
    OnePath(path);
    ResolvedSegments([base]);
    ResolvedSegments([path]);
    NormalFormSplits(b, absolute);
    NormalFormSplits(p, absolute);
    JoinedWithRelative(base, path);
    Walk(base, path);
    OnePath(rel);
    assert [base, rel][1..] == [rel];
    SameString([base, rel], [path]);
  }

  /** Three ways to miss the path: a base that leaves through more `..`, a relative path without a
      segment, and different roots. */
  lemma RoundTripMisses()
    ensures Relative("..", "a") == "../a" && Normalized(["..", "../a"]) == "../../a" && Normalized(["a"]) == "a"
    ensures Relative("", "") == "." && Normalized(["", "."]) == "." && Normalized([""]) == ""
    ensures Relative("a", "/b") == "" && Normalized(["a", ""]) == "a" && Normalized(["/b"]) == "/b"
  {
    MissBelow();
    MissEmpty();
    MissRoot();
  }

  lemma MissBelow()
    ensures Relative("..", "a") == "../a" && Normalized(["..", "../a"]) == "../../a" && Normalized(["a"]) == "a"
  {
    hide Segments, Resolved, Normalized, KindOf;
    Kinds();
    ShortPaths();
    OnePath("a");
    OnePath("..");
    TwoPaths("..", "../a");
    OneKept(["a"], "a");
    OneKept([".."], "..");
    ThreeKept(["..", "../a"]);
    RelativeBelow();
  }

  lemma RelativeBelow()
    requires Resolved([".."]) == [".."] && Resolved(["a"]) == ["a"]
    ensures Relative("..", "a") == "../a"
  {
    hide Resolved;
    assert RelativeSegments("..", "a") == ["..", "a"];
    assert Join(["..", "a"]) == "../a";
  }

  lemma MissEmpty()
    ensures Relative("", "") == "." && Normalized(["", "."]) == "." && Normalized([""]) == ""
  {
    hide Segments, Resolved, Normalized;
    ShortPaths();
    OnePath("");
    TwoPaths("", ".");
    NoneKept([""]);
    NoneKept(["", "."]);
    assert RelativeSegments("", "") == [];
  }

  lemma MissRoot()
    ensures Relative("a", "/b") == "" && Normalized(["a", ""]) == "a" && Normalized(["/b"]) == "/b"
  {
    hide Segments, Resolved, Normalized, KindOf;
    Kinds();
    ShortPaths();
    OnePath("/b");
    TwoPaths("a", "");
    OneKept(["a", ""], "a");
    OneKept(["/b"], "b");
  }

  lemma Kinds()
    ensures KindOf("a") == Normal && KindOf("b") == Normal && KindOf("..") == Back
  {
  }

  lemma ShortPaths()
    ensures Segments("") == [] && Segments("a") == ["a"] && Segments("/b") == ["b"]
    ensures Segments(".") == ["."] && Segments("..") == [".."] && Segments("../a") == ["..", "a"]
  {
    Dot();
    NoSegments();
    assert "a" + "" == "a" && "b" + "" == "b" && ".." + "" == ".." && ".." + "/a" == "../a";
    FirstSegment("a", "");
    FirstSegment("b", "");
    FirstSegment("..", "");
    FirstSegment("..", "/a");
    assert [SEPARATOR] + "a" == "/a" && [SEPARATOR] + "b" == "/b";
    LeadingSeparator("a");
    LeadingSeparator("b");
  }

  lemma TwoPaths(a: string, b: string)
    ensures AllSegments([a, b]) == Segments(a) + Segments(b)
  {
    assert [a, b][1..] == [b];
    OnePath(b);
  }

  lemma NoneKept(paths: seq<string>)
    requires paths != [] && paths[0] == "" && (AllSegments(paths) == [] || AllSegments(paths) == ["."])
    ensures Resolved(paths) == [] && Normalized(paths) == if AllSegments(paths) == [] then "" else "."
  {
    PushDot([], false);
  }

  lemma OneKept(paths: seq<string>, text: string)
    requires paths != [] && AllSegments(paths) == [text] && KindOf(text) != Current
    requires KindOf(text) == Back ==> !Absolute(paths)
    ensures Resolved(paths) == [text]
    ensures Normalized(paths) == paths[0][..Root(paths[0])] + text
  {
    assert [text][..0] == [];
    assert PushAll([], [text], Absolute(paths)) == Push(PushAll([], [], Absolute(paths)), text, Absolute(paths));
    assert [] + [text] == [text];
  }

  lemma ThreeKept(paths: seq<string>)
    requires paths != [] && paths[0] == ".." && AllSegments(paths) == ["..", "..", "a"]
    ensures Normalized(paths) == "../../a"
  {
    hide KindOf, Join, PushAll;
    Kinds();
    var segs := ["..", "..", "a"];
    assert PathSpec.Split(segs, 2);
    NormalFormFixed(segs, false);
    JoinThree();
    EmptyPlus(Join(segs));
  }

  lemma EmptyPlus(s: string)
    ensures "" + s == s
  {
  }

  lemma JoinThree()
    ensures Join(["..", "..", "a"]) == "../../a"
  {
    assert ["..", "..", "a"][..2] == ["..", ".."] && ["..", ".."][..1] == [".."];
    assert Join(["..", ".."]) == "../..";
  }
}
