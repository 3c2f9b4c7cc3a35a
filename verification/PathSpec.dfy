// What lexical normalisation of a Unix path means, independently of the scans that
// source/cwalk.c uses: segments are pushed on and popped off a stack, from left to right.
module PathSpec {

  datatype Kind = Current | Back | Normal

  /** cwk_path_get_segment_type; an empty text (no segment at all) counts as current. */
  function KindOf(text: string): Kind {
    if text == "" || text == "." then Current else if text == ".." then Back else Normal
  }

  // ----- the reference: a stack machine over texts -----

  function Push(stack: seq<string>, text: string, absolute: bool): seq<string> {
    match KindOf(text)
    case Current => stack
    case Normal => stack + [text]
    case Back =>
      if stack != [] && KindOf(stack[|stack| - 1]) == Normal then stack[..|stack| - 1]
      else if absolute then stack
      else stack + [text]
  }

  function PushAll(stack: seq<string>, segs: seq<string>, absolute: bool): seq<string> {
    if segs == [] then stack
    else Push(PushAll(stack, segs[..|segs| - 1], absolute), segs[|segs| - 1], absolute)
  }

  lemma {:induction false} PushAllAppend(stack: seq<string>, a: seq<string>, b: seq<string>, absolute: bool)
    ensures PushAll(stack, a + b, absolute) == PushAll(PushAll(stack, a, absolute), b, absolute)
  {
    if b == [] {
      assert a + b == a;
    } else {
      PushAllAppend(stack, a, b[..|b| - 1], absolute);
      assert (a + b)[..|a + b| - 1] == a + b[..|b| - 1];
    }
  }

  /** A run of `..` (none when absolute) followed by normal segments. */
  ghost predicate NormalForm(stack: seq<string>, absolute: bool) {
    exists backs :: 0 <= backs <= |stack| && Split(stack, backs) && (absolute ==> backs == 0)
  }

  ghost predicate Split(stack: seq<string>, backs: nat) {
    && backs <= |stack|
    && (forall i :: 0 <= i < backs ==> KindOf(stack[i]) == Back)
    && (forall i :: backs <= i < |stack| ==> KindOf(stack[i]) == Normal)
  }

  lemma {:induction false} PushAllNormalForm(segs: seq<string>, absolute: bool)
    ensures NormalForm(PushAll([], segs, absolute), absolute)
  {
    if segs == [] {
      assert Split([], 0);
    } else {
      PushAllNormalForm(segs[..|segs| - 1], absolute);
      var s := PushAll([], segs[..|segs| - 1], absolute);
      var text := segs[|segs| - 1];
      var r := Push(s, text, absolute);
      var backs :| 0 <= backs <= |s| && Split(s, backs) && (absolute ==> backs == 0);
      if KindOf(text) == Back && |r| > |s| {
        assert Split(r, backs + 1);
      } else {
        assert Split(r, backs);
      }
    }
  }

  lemma SplitFront(stack: seq<string>, backs: nat)
    requires stack != [] && Split(stack, backs)
    ensures Split(stack[..|stack| - 1], if backs == |stack| then backs - 1 else backs)
    ensures KindOf(stack[|stack| - 1]) == if backs == |stack| then Back else Normal
    ensures |stack| > 1 && backs == |stack| ==> KindOf(stack[..|stack| - 1][|stack| - 2]) == Back
  {
  }

  /** A stack in normal form is what it normalises to. */
  lemma {:induction false} NormalFormFixed(stack: seq<string>, absolute: bool)
    requires NormalForm(stack, absolute)
    ensures PushAll([], stack, absolute) == stack
  {
    if stack != [] {
      var front := stack[..|stack| - 1];
      var backs :| 0 <= backs <= |stack| && Split(stack, backs) && (absolute ==> backs == 0);
      SplitFront(stack, backs);
      NormalFormFixed(front, absolute);
      assert stack == front + [stack[|stack| - 1]];
    }
  }

  // ----- the counters of the source -----

  /** Normal segments minus back segments among segs[i..j]. */
  function Balance(segs: seq<string>, i: nat, j: nat): int
    requires i <= j <= |segs|
    decreases j - i
  {
    if i == j then 0 else Balance(segs, i, j - 1) + Weight(segs[j - 1])
  }

  function Weight(text: string): int {
    match KindOf(text) case Normal => 1 case Back => -1 case Current => 0
  }

  lemma {:induction false} BalanceFront(segs: seq<string>, i: nat, j: nat)
    requires i < j <= |segs|
    ensures Balance(segs, i, j) == Weight(segs[i]) + Balance(segs, i + 1, j)
    decreases j - i
  {
    if i + 1 < j {
      BalanceFront(segs, i, j - 1);
    }
  }

  /** The forward scan, started at `from`, has dropped below zero by segment n. */
  ghost predicate Drops(segs: seq<string>, from: nat, n: nat)
    requires from <= n <= |segs|
  {
    exists j: nat :: from <= j <= n && Balance(segs, from, j) < 0
  }

  /** The backward scan, started before segment i, climbs above zero somewhere. */
  ghost predicate Climbs(segs: seq<string>, i: nat)
    requires i <= |segs|
  {
    exists j: nat :: j <= i && Balance(segs, j, i) > 0
  }

  /** ... and so does it on its way back to segment `from`. */
  ghost predicate ClimbsFrom(segs: seq<string>, from: nat, i: nat)
    requires from <= i <= |segs|
  {
    exists j: nat :: from <= j <= i && Balance(segs, j, i) > 0
  }

  lemma ClimbsStep(segs: seq<string>, from: nat, i: nat)
    requires from < i <= |segs|
    ensures ClimbsFrom(segs, from, i) <==> ClimbsFrom(segs, from + 1, i) || Balance(segs, from, i) > 0
    ensures Balance(segs, from, i) == Weight(segs[from]) + Balance(segs, from + 1, i)
    ensures ClimbsFrom(segs, from, i) ==> Climbs(segs, i)
    ensures from == 0 && Climbs(segs, i) ==> ClimbsFrom(segs, from, i)
  {
    BalanceFront(segs, from, i);
  }

  lemma NoDrops(segs: seq<string>, from: nat)
    requires from <= |segs|
    ensures !Drops(segs, from, from) && Balance(segs, from, from) == 0
  {
  }

  lemma DropsStep(segs: seq<string>, from: nat, n: nat)
    requires from <= n < |segs|
    ensures Drops(segs, from, n + 1) <==> Drops(segs, from, n) || Balance(segs, from, n + 1) < 0
    ensures Balance(segs, from, n + 1) == Balance(segs, from, n) + Weight(segs[n])
  {
    if Balance(segs, from, n + 1) < 0 {
      var m := n + 1;
      assert Balance(segs, from, m) < 0;
    }
  }

  lemma DropsOn(segs: seq<string>, from: nat, n: nat, m: nat)
    requires from <= n <= m <= |segs| && Drops(segs, from, n)
    ensures Drops(segs, from, m)
  {
    var j: nat :| from <= j <= n && Balance(segs, from, j) < 0;
  }

  /** cwk_path_segment_will_be_removed. */
  ghost predicate Removed(segs: seq<string>, i: nat, absolute: bool)
    requires i < |segs|
  {
    match KindOf(segs[i])
    case Current => true
    case Back => absolute || Climbs(segs, i)
    case Normal => Drops(segs, i + 1, |segs|)
  }

  // ----- the same stack machine, over segment positions -----

  /** The stack of positions, and how many `..` lie at its bottom. */
  datatype Positions = Positions(at: seq<nat>, backs: nat) {
    predicate NormalOnTop() { |at| > backs }

    function Step(text: string, i: nat, absolute: bool): Positions {
      match KindOf(text)
      case Current => this
      case Normal => this.(at := at + [i])
      case Back =>
        if NormalOnTop() then this.(at := at[..|at| - 1])
        else if absolute then this
        else Positions(at + [i], backs + 1)
    }

    ghost predicate Layout(segs: seq<string>, n: nat, absolute: bool)
      requires n <= |segs|
    {
      && backs <= |at| && (absolute ==> backs == 0)
      && (forall p :: 0 <= p < |at| ==> at[p] < n && KindOf(segs[at[p]]) == if p < backs then Back else Normal)
      && (forall p, q :: 0 <= p < q < |at| ==> at[p] < at[q])
    }

    /** The counters know the stack's height: a stacked normal segment has as many unmatched
        normal segments after it as stand above it, and no suffix has more than the stack holds. */
    ghost predicate Heights(segs: seq<string>, n: nat)
      requires n <= |segs| && forall p :: 0 <= p < |at| ==> at[p] < n
    {
      && (forall p :: backs <= p < |at| ==> Balance(segs, at[p] + 1, n) == |at| - 1 - p)
      && (forall j: nat :: j <= n ==> Balance(segs, j, n) <= |at| - backs)
    }

    lemma StepKeeps(segs: seq<string>, n: nat, absolute: bool)
      requires n < |segs| && Layout(segs, n, absolute) && Heights(segs, n)
      ensures Step(segs[n], n, absolute).Layout(segs, n + 1, absolute)
      ensures Step(segs[n], n, absolute).Heights(segs, n + 1)
    {
      var r := Step(segs[n], n, absolute);
      forall j: nat | j <= n
        ensures Balance(segs, j, n + 1) == Balance(segs, j, n) + Weight(segs[n])
      {
      }
      forall p | r.backs <= p < |r.at|
        ensures Balance(segs, r.at[p] + 1, n + 1) == |r.at| - 1 - p
      {
        if r.at[p] < n { assert at[p] == r.at[p]; }
      }
      var m := n + 1;
      forall j: nat | j <= m
        ensures Balance(segs, j, m) <= |r.at| - r.backs
      {
        if j <= n { assert Balance(segs, j, n) <= |at| - backs; }
      }
    }
  }

  ghost function Stack(segs: seq<string>, n: nat, absolute: bool): Positions
    requires n <= |segs|
  {
    if n == 0 then Positions([], 0) else Stack(segs, n - 1, absolute).Step(segs[n - 1], n - 1, absolute)
  }

  lemma {:induction false} StackHolds(segs: seq<string>, n: nat, absolute: bool)
    requires n <= |segs|
    ensures Stack(segs, n, absolute).Layout(segs, n, absolute)
    ensures Stack(segs, n, absolute).Heights(segs, n)
  {
    if n > 0 {
      StackHolds(segs, n - 1, absolute);
      Stack(segs, n - 1, absolute).StepKeeps(segs, n - 1, absolute);
    }
  }

  /** A normal segment is stacked after n segments exactly when its scan has not dropped below zero. */
  lemma {:induction false} NormalStacked(segs: seq<string>, n: nat, absolute: bool, i: nat)
    requires i < n <= |segs| && KindOf(segs[i]) == Normal
    ensures i in Stack(segs, n, absolute).at <==> !Drops(segs, i + 1, n)
  {
    var s := Stack(segs, n - 1, absolute);
    StackHolds(segs, n - 1, absolute);
    if i < n - 1 {
      NormalStacked(segs, n - 1, absolute, i);
      DropsStep(segs, i + 1, n - 1);
      StaysStacked(segs, s, n - 1, absolute, i);
    }
  }

  /** A stacked normal segment is popped when its balance drops below zero. */
  lemma StaysStacked(segs: seq<string>, s: Positions, n: nat, absolute: bool, i: nat)
    requires i < n < |segs| && KindOf(segs[i]) == Normal && s.Layout(segs, n, absolute) && s.Heights(segs, n)
    ensures i in s.Step(segs[n], n, absolute).at <==> i in s.at && Balance(segs, i + 1, n) + Weight(segs[n]) >= 0
  {
    hide Balance, KindOf;
    if i in s.at {
      var p :| 0 <= p < |s.at| && s.at[p] == i;
      assert p >= s.backs && Balance(segs, i + 1, n) == |s.at| - 1 - p;
      TopOnly(s.at, p);
    }
    match KindOf(segs[n])
    case Current =>
    case Normal =>
      assert i in s.at + [n] <==> i in s.at;
    case Back =>
      if s.NormalOnTop() {
        assert i in s.at[..|s.at| - 1] ==> i in s.at;
      } else {
        assert i !in s.at;
      }
  }

  /** In an ascending sequence, dropping the last element drops just that. */
  lemma TopOnly(at: seq<nat>, p: nat)
    requires p < |at| && forall p, q :: 0 <= p < q < |at| ==> at[p] < at[q]
    ensures at[p] in at[..|at| - 1] <==> p < |at| - 1
  {
    if p < |at| - 1 {
      assert at[..|at| - 1][p] == at[p];
    }
  }

  /** A back segment of a relative path is stacked exactly when its scan never climbs above zero. */
  lemma {:induction false} BackStacked(segs: seq<string>, n: nat, i: nat)
    requires i < n <= |segs| && KindOf(segs[i]) == Back
    ensures i in Stack(segs, n, false).at <==> !Climbs(segs, i)
  {
    var s := Stack(segs, n - 1, false);
    StackHolds(segs, n - 1, false);
    if i < n - 1 {
      BackStacked(segs, n - 1, i);
    } else if s.NormalOnTop() {
      TopClimbs(segs, s, i);
    } else {
      NoClimb(segs, s, i);
    }
  }

  lemma TopClimbs(segs: seq<string>, s: Positions, i: nat)
    requires i < |segs| && s.Layout(segs, i, false) && s.Heights(segs, i) && s.NormalOnTop()
    ensures Climbs(segs, i)
  {
    var top := s.at[|s.at| - 1];
    BalanceFront(segs, top, i);
    assert Balance(segs, top, i) > 0;
  }

  lemma NoClimb(segs: seq<string>, s: Positions, i: nat)
    requires i < |segs| && s.Layout(segs, i, false) && s.Heights(segs, i) && !s.NormalOnTop()
    ensures !Climbs(segs, i)
  {
  }

  /** The counter scans keep exactly the segments the stack machine keeps. */
  lemma ScansMatchStack(segs: seq<string>, absolute: bool, i: nat)
    requires i < |segs|
    ensures i in Stack(segs, |segs|, absolute).at <==> !Removed(segs, i, absolute)
  {
    StackHolds(segs, |segs|, absolute);
    match KindOf(segs[i])
    case Current =>
    case Normal => NormalStacked(segs, |segs|, absolute, i);
    case Back => if !absolute { BackStacked(segs, |segs|, i); }
  }

  // ----- the two stack machines agree -----

  function Texts(segs: seq<string>, at: seq<nat>): seq<string>
    requires forall p :: 0 <= p < |at| ==> at[p] < |segs|
  {
    seq(|at|, p requires 0 <= p < |at| => segs[at[p]])
  }

  lemma TextsPush(segs: seq<string>, at: seq<nat>, i: nat)
    requires (forall p :: 0 <= p < |at| ==> at[p] < |segs|) && i < |segs|
    ensures Texts(segs, at + [i]) == Texts(segs, at) + [segs[i]]
  {
  }

  lemma TextsTake(segs: seq<string>, at: seq<nat>, k: nat)
    requires (forall p :: 0 <= p < |at| ==> at[p] < |segs|) && k <= |at|
    ensures Texts(segs, at[..k]) == Texts(segs, at)[..k]
  {
  }

  lemma {:induction false} StackTexts(segs: seq<string>, n: nat, absolute: bool)
    requires n <= |segs|
    ensures Stack(segs, n, absolute).Layout(segs, n, absolute)
    ensures Texts(segs, Stack(segs, n, absolute).at) == PushAll([], segs[..n], absolute)
  {
    StackHolds(segs, n, absolute);
    if n > 0 {
      var s := Stack(segs, n - 1, absolute);
      StackTexts(segs, n - 1, absolute);
      assert segs[..n][..n - 1] == segs[..n - 1] && segs[..n][n - 1] == segs[n - 1];
      StepTexts(s, segs, n - 1, absolute);
    }
  }

  /** One step of the machine over positions is one push on the texts. */
  lemma StepTexts(s: Positions, segs: seq<string>, n: nat, absolute: bool)
    requires n < |segs| && s.Layout(segs, n, absolute)
    ensures forall p :: 0 <= p < |s.Step(segs[n], n, absolute).at| ==> s.Step(segs[n], n, absolute).at[p] < |segs|
    ensures Texts(segs, s.Step(segs[n], n, absolute).at) == Push(Texts(segs, s.at), segs[n], absolute)
  {
    TextsPush(segs, s.at, n);
    if s.at != [] {
      TextsTake(segs, s.at, |s.at| - 1);
    }
  }

  /** The segments that the scans keep, in order. */
  ghost function Kept(segs: seq<string>, n: nat, absolute: bool): seq<string>
    requires n <= |segs|
  {
    if n == 0 then []
    else Kept(segs, n - 1, absolute) + if Removed(segs, n - 1, absolute) then [] else [segs[n - 1]]
  }

  /** What the source writes out, segment by segment, is what the reference machine leaves. */
  lemma KeptIsNormal(segs: seq<string>, absolute: bool)
    ensures Kept(segs, |segs|, absolute) == PushAll([], segs, absolute)
  {
    var s := Stack(segs, |segs|, absolute);
    StackTexts(segs, |segs|, absolute);
    assert segs[..|segs|] == segs && s.at[..|s.at|] == s.at;
    KeptPrefix(segs, |segs|, absolute, |s.at|);
  }

  lemma AscendingPrefix(at: seq<nat>, n: nat, m: nat)
    requires m <= |at| && (forall p :: 0 <= p < |at| ==> (at[p] < n <==> p < m))
    requires forall p, q :: 0 <= p < q < |at| ==> at[p] < at[q]
    ensures n == 0 ==> m == 0
    ensures n > 0 && n - 1 in at ==> m > 0 && at[m - 1] == n - 1
  {
    if m > 0 {
      assert at[m - 1] < n;
    }
    if n > 0 && n - 1 in at {
      var p :| 0 <= p < |at| && at[p] == n - 1;
      assert at[p] <= at[m - 1];
    }
  }

  /** The first n segments keep the first m stacked ones, where m counts the stacked positions below n. */
  lemma {:induction false} KeptPrefix(segs: seq<string>, n: nat, absolute: bool, m: nat)
    requires n <= |segs| && m <= |Stack(segs, |segs|, absolute).at|
    requires Stack(segs, |segs|, absolute).Layout(segs, |segs|, absolute)
    requires forall p :: 0 <= p < |Stack(segs, |segs|, absolute).at| ==>
               (Stack(segs, |segs|, absolute).at[p] < n <==> p < m)
    ensures Kept(segs, n, absolute) == Texts(segs, Stack(segs, |segs|, absolute).at[..m])
  {
    var at := Stack(segs, |segs|, absolute).at;
    AscendingPrefix(at, n, m);
    if n > 0 {
      ScansMatchStack(segs, absolute, n - 1);
      if m > 0 && at[m - 1] == n - 1 {
        KeptPrefix(segs, n - 1, absolute, m - 1);
        assert at[..m] == at[..m - 1] + [n - 1];
        TextsPush(segs, at[..m - 1], n - 1);
      } else {
        KeptPrefix(segs, n - 1, absolute, m);
      }
    }
  }

  /** The segments from position i on that the scans keep. */
  ghost function KeptFrom(segs: seq<string>, i: nat, absolute: bool): seq<string>
    requires i <= |segs|
    decreases |segs| - i
  {
    if i == |segs| then []
    else (if Removed(segs, i, absolute) then [] else [segs[i]]) + KeptFrom(segs, i + 1, absolute)
  }

  lemma {:induction false} KeptSplits(segs: seq<string>, i: nat, absolute: bool)
    requires i <= |segs|
    ensures Kept(segs, i, absolute) + KeptFrom(segs, i, absolute) == Kept(segs, |segs|, absolute)
    decreases |segs| - i
  {
    if i < |segs| {
      KeptSplits(segs, i + 1, absolute);
    }
  }

  /** Skipping segments that are removed skips nothing that is kept. */
  lemma {:induction false} KeptSkip(segs: seq<string>, i: nat, j: nat, absolute: bool)
    requires i <= j <= |segs| && forall k: nat :: i <= k < j ==> Removed(segs, k, absolute)
    ensures KeptFrom(segs, i, absolute) == KeptFrom(segs, j, absolute)
    decreases j - i
  {
    if i < j {
      KeptSkip(segs, i + 1, j, absolute);
    }
  }
}
