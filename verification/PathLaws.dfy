// What normalisation means as rewriting: which texts may be taken out of a path, said of the
// strings "." and ".." alone, and that this decides the result. And that no relative path is
// shorter than the one source/cwalk.c writes.
module PathLaws {
  import opened PathSpec
  import opened PathText

  /** A name of a file or directory. */
  predicate IsName(text: string) {
    text != "" && text != "." && text != ".."
  }

  /** s without one "." is t, or s without a name and the ".." right behind it, or an absolute s
      without the ".." at its front. */
  ghost predicate Reduces(s: seq<string>, t: seq<string>, absolute: bool) {
    || (exists i :: DotAt(s, i) && t == s[..i] + s[i + 1..])
    || (exists i :: PairAt(s, i) && t == s[..i] + s[i + 2..])
    || (absolute && s != [] && s[0] == ".." && t == s[1..])
  }

  predicate DotAt(s: seq<string>, i: int) {
    0 <= i < |s| && s[i] == "."
  }

  predicate PairAt(s: seq<string>, i: int) {
    0 <= i < |s| - 1 && IsName(s[i]) && s[i + 1] == ".."
  }

  ghost predicate ReducesIn(n: nat, s: seq<string>, t: seq<string>, absolute: bool) {
    if n == 0 then s == t else exists u :: Reduces(s, u, absolute) && ReducesIn(n - 1, u, t, absolute)
  }

  ghost predicate ReducesTo(s: seq<string>, t: seq<string>, absolute: bool) {
    exists n: nat :: ReducesIn(n, s, t, absolute)
  }

  /** Names, behind a run of ".." when relative. */
  ghost predicate Irreducible(s: seq<string>, absolute: bool) {
    && (forall i :: 0 <= i < |s| ==> s[i] == ".." || IsName(s[i]))
    && (forall i :: 0 <= i < |s| && s[i] == ".." ==> !absolute && (i > 0 ==> s[i - 1] == ".."))
  }

  // ----- each rule leaves the result as it is -----

  lemma DotDropped(s: seq<string>, i: nat, absolute: bool)
    requires DotAt(s, i)
    ensures PushAll([], s, absolute) == PushAll([], s[..i] + s[i + 1..], absolute)
  {
    var a, b := s[..i], s[i + 1..];
    assert s == a + ["."] + b;
    PushAllAppend([], a, b, absolute);
    PushAllAppend([], a + ["."], b, absolute);
    PushAllAppend([], a, ["."], absolute);
    PushDot(PushAll([], a, absolute), absolute);
  }

  lemma PairDropped(s: seq<string>, i: nat, absolute: bool)
    requires PairAt(s, i)
    ensures PushAll([], s, absolute) == PushAll([], s[..i] + s[i + 2..], absolute)
  {
    var a, b, pair := s[..i], s[i + 2..], [s[i], ".."];
    assert s == a + pair + b;
    PushAllAppend([], a, b, absolute);
    PushAllAppend([], a + pair, b, absolute);
    PushAllAppend([], a, pair, absolute);
    PushPair(PushAll([], a, absolute), s[i], absolute);
  }

  lemma PushPair(stack: seq<string>, name: string, absolute: bool)
    requires IsName(name)
    ensures PushAll(stack, [name, ".."], absolute) == stack
  {
    assert [name, ".."][..1] == [name] && [name][..0] == [];
    assert PushAll(stack, [name], absolute) == Push(PushAll(stack, [], absolute), name, absolute) == stack + [name];
    assert (stack + [name])[..|stack|] == stack;
  }

  lemma RootDropped(s: seq<string>)
    requires s != [] && s[0] == ".."
    ensures PushAll([], s, true) == PushAll([], s[1..], true)
  {
    assert s == [".."] + s[1..];
    PushAllAppend([], [".."], s[1..], true);
    assert [".."][..0] == [] && PushAll([], [".."], true) == Push(PushAll([], [], true), "..", true) == [];
  }

  lemma ReductionKeeps(s: seq<string>, t: seq<string>, absolute: bool)
    requires Reduces(s, t, absolute)
    ensures PushAll([], s, absolute) == PushAll([], t, absolute) && |t| < |s|
    ensures forall text :: text in t ==> text in s
  {
    hide PushAll;
    if i :| DotAt(s, i) && t == s[..i] + s[i + 1..] {
      DotDropped(s, i, absolute);
    } else if i :| PairAt(s, i) && t == s[..i] + s[i + 2..] {
      PairDropped(s, i, absolute);
    } else {
      RootDropped(s);
    }
  }

  lemma {:induction false} ReductionsKeep(n: nat, s: seq<string>, t: seq<string>, absolute: bool)
    requires ReducesIn(n, s, t, absolute)
    ensures PushAll([], s, absolute) == PushAll([], t, absolute)
  {
    hide Reduces, PushAll;
    if n > 0 {
      var u :| Reduces(s, u, absolute) && ReducesIn(n - 1, u, t, absolute);
      ReductionKeeps(s, u, absolute);
      ReductionsKeep(n - 1, u, t, absolute);
    }
  }

  // ----- and what no rule applies to is the result -----

  lemma IrreducibleIsNormal(s: seq<string>, absolute: bool)
    ensures Irreducible(s, absolute) <==> NormalForm(s, absolute)
  {
    if Irreducible(s, absolute) {
      BackRun(s);
      assert PathSpec.Split(s, LeadingUps(s));
    }
    if NormalForm(s, absolute) {
      var backs :| 0 <= backs <= |s| && PathSpec.Split(s, backs) && (absolute ==> backs == 0);
      forall i | 0 <= i < |s| && s[i] == ".."
        ensures !absolute && (i > 0 ==> s[i - 1] == "..")
      {
        assert KindOf(s[i]) == Back && i < backs;
      }
    }
  }

  lemma BackRun(s: seq<string>)
    requires forall i :: 0 < i < |s| && s[i] == ".." ==> s[i - 1] == ".."
    ensures forall i :: LeadingUps(s) <= i < |s| ==> s[i] != ".."
  {
    var n := LeadingUps(s);
    forall i | n <= i < |s|
      ensures s[i] != ".."
    {
      NoneBehind(s, n, i);
    }
  }

  lemma {:induction false} NoneBehind(s: seq<string>, n: nat, i: nat)
    requires forall i :: 0 < i < |s| && s[i] == ".." ==> s[i - 1] == ".."
    requires n <= i < |s| && s[n] != ".."
    ensures s[i] != ".."
    decreases i
  {
    if n < i {
      NoneBehind(s, n, i - 1);
    }
  }

  /** Some rule applies to anything else. */
  lemma Reducible(s: seq<string>, absolute: bool) returns (t: seq<string>)
    requires "" !in s && !Irreducible(s, absolute)
    ensures Reduces(s, t, absolute)
  {
    if i :| 0 <= i < |s| && s[i] != ".." && !IsName(s[i]) {
      assert s[i] in s && DotAt(s, i);
      t := s[..i] + s[i + 1..];
    } else {
      var i :| 0 <= i < |s| && s[i] == ".." && (absolute || (i > 0 && s[i - 1] != ".."));
      t := BackReduces(s, i, absolute);
    }
  }

  /** A ".." that may not stay, or one before it, goes away. */
  lemma {:induction false} BackReduces(s: seq<string>, i: nat, absolute: bool) returns (t: seq<string>)
    requires i < |s| && s[i] == ".." && forall k :: 0 <= k < |s| ==> s[k] == ".." || IsName(s[k])
    requires absolute || (i > 0 && s[i - 1] != "..")
    ensures Reduces(s, t, absolute)
    decreases i
  {
    if i == 0 {
      t := s[1..];
    } else if s[i - 1] == ".." {
      t := BackReduces(s, i - 1, absolute);
    } else {
      assert PairAt(s, i - 1);
      t := s[..i - 1] + s[i - 1 + 2..];
    }
  }

  lemma {:induction false} ReducesToNormal(s: seq<string>, absolute: bool) returns (n: nat)
    requires "" !in s
    ensures ReducesIn(n, s, PushAll([], s, absolute), absolute)
    decreases |s|
  {
    hide Reduces, Irreducible, PushAll, NormalForm;
    if Irreducible(s, absolute) {
      IrreducibleIsNormal(s, absolute);
      NormalFormFixed(s, absolute);
      n := 0;
    } else {
      var t := Reducible(s, absolute);
      ReductionKeeps(s, t, absolute);
      var m := ReducesToNormal(t, absolute);
      n := m + 1;
    }
  }

  /** The segments of the normalised path are the only ones that the rules can end in, in whatever
      order they are applied. */
  lemma ResolvedIff(paths: seq<string>, t: seq<string>)
    requires paths != []
    ensures var absolute := paths[0] != "" && paths[0][0] == '/';
      Resolved(paths) == t <==>
      Irreducible(t, absolute) && ReducesTo(AllSegments(paths), t, absolute)
  {
    hide Irreducible, PushAll, NormalForm, ReducesIn;
    var segs, absolute := AllSegments(paths), paths[0] != "" && paths[0][0] == '/';
    assert absolute == Absolute(paths) && Resolved(paths) == PushAll([], segs, absolute);
    AllSegmentsAreSegments(paths);
    NoneEmpty(segs);
    if Resolved(paths) == t {
      ResolvedSegments(paths);
      IrreducibleIsNormal(t, absolute);
      var n := ReducesToNormal(segs, absolute);
      assert ReducesIn(n, segs, t, absolute);
    }
    if Irreducible(t, absolute) && ReducesTo(segs, t, absolute) {
      var n: nat :| ReducesIn(n, segs, t, absolute);
      ReductionsKeep(n, segs, t, absolute);
      IrreducibleIsNormal(t, absolute);
      NormalFormFixed(t, absolute);
    }
  }

  /** So the text written is decided by the rules. */
  lemma NormalizedByRules(paths: seq<string>, t: seq<string>)
    requires paths != []
    requires var absolute := paths[0] != "" && paths[0][0] == '/';
      Irreducible(t, absolute) && ReducesTo(AllSegments(paths), t, absolute)
    ensures var absolute := paths[0] != "" && paths[0][0] == '/';
      Normalized(paths) == if !absolute && t == [] && AllSegments(paths) != [] then "."
                           else (if absolute then "/" else "") + Join(t)
  {
    hide PushAll, Irreducible, ReducesTo, AllSegments;
    ResolvedIff(paths, t);
    assert Root(paths[0]) == 1 ==> paths[0][..1] == "/";
    assert Resolved(paths) == PushAll([], AllSegments(paths), Absolute(paths));
  }

  lemma NoneEmpty(segs: seq<string>)
    requires AreSegments(segs)
    ensures "" !in segs
  {
  }

  /** Names are kept as they are, whatever they start with. */
  lemma NamesKept(paths: seq<string>)
    requires paths != [] && forall text :: text in AllSegments(paths) ==> text != "." && text != ".."
    ensures Resolved(paths) == AllSegments(paths)
  {
    hide PushAll, AllSegments;
    var segs := AllSegments(paths);
    AllSegmentsAreSegments(paths);
    NoneEmpty(segs);
    assert Irreducible(segs, Absolute(paths)) by {
      assert forall i :: 0 <= i < |segs| ==> segs[i] in segs;
    }
    IrreducibleIsNormal(segs, Absolute(paths));
    NormalFormFixed(segs, Absolute(paths));
  }

  // ----- how segments are written -----

  /** Single separators between segments, and none at either end. */
  lemma {:induction false} JoinTight(segs: seq<string>)
    requires AreSegments(segs)
    ensures var text := Join(segs);
      forall c :: 0 <= c < |text| && text[c] == '/' ==> 0 < c < |text| - 1 && text[c + 1] != '/'
    ensures segs != [] ==> Join(segs) != ""
  {
    if |segs| > 1 {
      JoinTight(segs[..|segs| - 1]);
      Appended(Join(segs[..|segs| - 1]), segs[|segs| - 1]);
    }
  }

  lemma Appended(text: string, seg: string)
    requires text != "" && IsSegment(seg)
    requires forall c :: 0 <= c < |text| && text[c] == '/' ==> 0 < c < |text| - 1 && text[c + 1] != '/'
    ensures var all := text + [SEPARATOR] + seg;
      forall c :: 0 <= c < |all| && all[c] == '/' ==> 0 < c < |all| - 1 && all[c + 1] != '/'
  {
    var all := text + [SEPARATOR] + seg;
    assert forall i :: 0 <= i < |seg| ==> all[|text| + 1 + i] == seg[i] != '/';
    forall c | 0 <= c < |all| && all[c] == '/'
      ensures 0 < c < |all| - 1 && all[c + 1] != '/'
    {
      if c < |text| {
        assert all[c] == text[c] && all[c + 1] == text[c + 1];
      }
    }
  }

  // ----- no relative path is shorter -----

  /** How many segments have to go, and how many to come, on the way from a to b. */
  function Far(a: seq<string>, b: seq<string>): int {
    |a| + |b| - 2 * Common(a, b)
  }

  lemma CommonLargest(a: seq<string>, b: seq<string>, k: nat)
    requires k <= |a| && k <= |b| && forall i :: 0 <= i < k ==> a[i] == b[i]
    ensures k <= Common(a, b)
  {
    hide Common;
  }

  /** One segment brings the stack at most one nearer. */
  lemma OneNearer(stack: seq<string>, text: string, absolute: bool, p: seq<string>)
    ensures Far(Push(stack, text, absolute), p) >= Far(stack, p) - 1
  {
    hide Common;
    var next := Push(stack, text, absolute);
    var c := Common(next, p);
    if |next| > |stack| {
      CommonLargest(stack, p, if c <= |stack| then c else |stack|);
    } else {
      CommonLargest(stack, p, c);
    }
  }

  lemma {:induction false} NoNearer(stack: seq<string>, way: seq<string>, absolute: bool, p: seq<string>)
    ensures Far(PushAll(stack, way, absolute), p) >= Far(stack, p) - |way|
    decreases |way|
  {
    hide Push, Far;
    if way != [] {
      var front := way[..|way| - 1];
      NoNearer(stack, front, absolute, p);
      OneNearer(PushAll(stack, front, absolute), way[|way| - 1], absolute, p);
    }
  }

  /** Whatever leads from the base to the path has at least as many segments as the relative path. */
  lemma RelativeShortest(base: string, path: string, way: seq<string>)
    requires PushAll(Resolved([base]), way, Root(base) == 1) == Resolved([path])
    ensures |RelativeSegments(base, path)| <= |way|
  {
    hide Resolved, PushAll;
    var b, p := Resolved([base]), Resolved([path]);
    NoNearer(b, way, Root(base) == 1, p);
    CommonLargest(p, p, |p|);
  }
}
