// The path functions of source/cwalk.c, in the Unix style: cursors that move over the segments
// of several strings, the scans that decide which segments are dropped, and the writers.
module Path {
  import opened PathSpec
  import opened PathText
  import opened Sequences

  /** cwk_path_is_separator; false on the terminating zero. */
  predicate IsSeparator(p: string, c: int) {
    0 <= c < |p| && p[c] == SEPARATOR
  }

  method FindNextStop(p: string, from: nat) returns (c: nat)
    requires from <= |p|
    ensures c == NextStop(p, from)
  {
    c := from;
    while c < |p| && !IsSeparator(p, c)
      invariant from <= c <= |p| && NextStop(p, c) == NextStop(p, from)
    {
      c := c + 1;
    }
  }

  /** The start of the separator-free stretch that ends with position `from`. */
  method FindPreviousStop(p: string, first: nat, from: nat) returns (c: nat)
    requires first <= from < |p| && !IsSeparator(p, from)
    ensures first <= c <= from && (c == first || IsSeparator(p, c - 1))
    ensures forall k :: c <= k <= from ==> !IsSeparator(p, k)
  {
    c := from;
    while c > first && !IsSeparator(p, c)
      invariant first <= c <= from && forall k :: c < k <= from ==> !IsSeparator(p, k)
    {
      c := c - 1;
    }
    if IsSeparator(p, c) {
      c := c + 1;
    }
  }

  /** A stretch without separators that ends at c has one start. */
  lemma SameStart(p: string, first: nat, a: nat, b: nat, c: nat)
    requires first <= a <= c < |p| && (a == first || IsSeparator(p, a - 1)) && forall k :: a <= k <= c ==> !IsSeparator(p, k)
    requires first <= b <= c && (b == first || IsSeparator(p, b - 1)) && forall k :: b <= k <= c ==> !IsSeparator(p, k)
    ensures a == b
  {
  }

  /** struct cwk_segment_joined together with its struct cwk_segment. `pathIndex == |paths|` is
      the NULL entry that ends the list. */
  class Cursor {
    const paths: seq<string>
    ghost const all: seq<string>  // the segments of all paths
    var pathIndex: nat
    var path: string
    var segments: nat
    var begin: nat
    var end: nat
    var size: nat
    ghost var m: nat    // the number of the segment within `path`
    ghost var pos: nat  // ... and among all segments

    /** The cursor stands on segment m of `path`. */
    ghost predicate InPath()
      reads this
    {
      && m < |Spans(path, 0)| && Spans(path, 0)[m] == Span(begin, end)
      && begin < end <= |path| && size == end - begin && segments <= Root(path)
    }

    /** ... and `pos` is its number among all segments. */
    ghost predicate Located()
      reads this
    {
      && pathIndex < |paths| && path == paths[pathIndex] && InPath()
      && all == AllSegments(paths) && pos == Offset(paths, pathIndex) + m
    }

    ghost predicate At(k: nat)
      reads this
    {
      && Located() && pos == k < |all|
      && begin + size <= |path| && path[begin..begin + size] == all[k]
    }

    ghost predicate AtEnd()
      reads this
    {
      pathIndex == |paths| && begin + size <= |path|
    }

    /** The list has no segment: the cursor went past its end without finding one. */
    ghost predicate Empty()
      reads this
    {
      AtEnd() && size == 0 && all == []
    }

    lemma LocatedAt()
      requires Located()
      ensures At(pos)
    {
      OffsetStep(paths, pathIndex);
    }

    constructor (paths: seq<string>)
      ensures this.paths == paths && all == AllSegments(paths)
    {
      this.paths := paths;
      all := AllSegments(paths);
      pathIndex, path, segments, begin, end, size, m, pos := 0, "", 0, 0, 0, 0, 0, 0;
    }

    constructor Copy(that: Cursor)
      ensures paths == that.paths && all == that.all && pathIndex == that.pathIndex && path == that.path
      ensures segments == that.segments && begin == that.begin && end == that.end
      ensures size == that.size && m == that.m && pos == that.pos
    {
      paths, all, pathIndex, path := that.paths, that.all, that.pathIndex, that.path;
      segments, begin, end, size := that.segments, that.begin, that.end, that.size;
      m, pos := that.m, that.pos;
    }

    /** cwk_path_get_first_segment_without_root, and cwk_path_get_first_segment when `from` is
        the end of the root. */
    method FirstSegment(p: string, from: nat) returns (ok: bool)
      requires from <= Root(p)
      modifies `path, `segments, `begin, `end, `size, `m
      ensures path == p && ok == (Spans(p, 0) != [])
      ensures if ok then InPath() && m == 0 else size == 0
      ensures begin <= |path|
    {
      path, segments, begin, end, size, m := p, from, from, from, 0, 0;
      assert SkipSeparators(p, 0) == SkipSeparators(p, from);
      if from == |p| {
        return false;
      }
      var c := from;
      while IsSeparator(p, c)
        invariant c < |p| && SkipSeparators(p, c) == SkipSeparators(p, from)
        invariant path == p && segments == from && size == 0 && m == 0
        decreases |p| - c
      {
        c := c + 1;
        if c == |p| {
          return false;
        }
      }
      begin := c;
      c := FindNextStop(p, c);
      size := c - begin;
      end := c;
      return true;
    }

    /** cwk_path_get_next_segment. */
    method NextSegment() returns (ok: bool)
      requires InPath()
      modifies `begin, `end, `size, `m
      ensures ok == (old(m) + 1 < |Spans(path, 0)|)
      ensures InPath() && m == if ok then old(m) + 1 else old(m)
    {
      hide Spans, Root;
      SpanEdges(path, m);
      NextSpan(path, m);
      var c := begin + size;
      if c == |path| {
        return false;
      }
      assert IsSeparator(path, c);
      c := c + 1;
      while IsSeparator(path, c)
        invariant end < c <= |path| && SkipSeparators(path, c) == SkipSeparators(path, end)
        decreases |path| - c
      {
        c := c + 1;
      }
      if c == |path| {
        return false;
      }
      begin := c;
      c := FindNextStop(path, c);
      end := c;
      size := c - begin;
      m := m + 1;
      return true;
    }

    /** cwk_path_get_previous_segment. */
    method PreviousSegment() returns (ok: bool)
      requires InPath()
      modifies `begin, `end, `size, `m
      ensures ok == (old(m) > 0)
      ensures InPath() && m == if ok then old(m) - 1 else old(m)
    {
      hide Spans, Root;
      SpanEdges(path, m);
      if m > 0 { SpanEdges(path, m - 1); }
      ghost var before := if m == 0 then Span(0, 0) else Spans(path, 0)[m - 1];
      var c: int := begin;
      if c <= segments {
        return false;
      }
      c := c - 1;
      if c < segments {
        return false;
      }
      while IsSeparator(path, c)
        invariant segments <= c < begin
        invariant before.end - 1 <= c
        invariant forall k :: c < k < begin ==> IsSeparator(path, k)
        decreases c
      {
        c := c - 1;
        if c < segments {
          return false;
        }
      }
      assert m > 0 && c == before.end - 1;
      end := c + 1;
      var b := FindPreviousStop(path, segments, c);
      SameStart(path, segments, b, before.begin, c);
      begin := b;
      size := end - begin;
      m := m - 1;
      return true;
    }

    /** cwk_path_get_last_segment, and ..._without_root when `from` is 0. */
    method LastSegment(p: string, from: nat) returns (ok: bool)
      requires from <= Root(p)
      modifies `path, `segments, `begin, `end, `size, `m
      ensures path == p && ok == (Spans(p, 0) != [])
      ensures ok ==> InPath() && m + 1 == |Spans(p, 0)|
    {
      ok := FirstSegment(p, from);
      if ok {
        var more := true;
        while more
          invariant path == p && InPath() && (more || m + 1 == |Spans(p, 0)|)
          decreases more, |Spans(p, 0)| - m
        {
          more := NextSegment();
        }
      }
    }

    /** cwk_path_get_first_segment_joined. */
    method FirstJoined() returns (ok: bool)
      requires all == AllSegments(paths)
      modifies this
      ensures ok == (all != [])
      ensures if ok then At(0) else Empty()
    {
      pathIndex, path, begin, size := 0, "", 0, 0;
      ok := false;
      OffsetEnd(paths);
      while pathIndex < |paths| && !ok
        invariant pathIndex <= |paths| && Offset(paths, pathIndex) == 0
        invariant if ok then Located() && pos == 0 else size == 0 && begin <= |path|
        decreases |paths| - pathIndex, !ok
      {
        OffsetStep(paths, pathIndex);
        ok := FirstSegment(paths[pathIndex], Root(paths[pathIndex]));
        pos := 0;
        if !ok {
          pathIndex := pathIndex + 1;
        }
      }
      if ok {
        LocatedAt();
      }
    }

    /** The do-while loop of cwk_path_get_next_segment_joined: on to the next path that has a
        segment; `next` is the number of that segment. */
    method NextPath(ghost next: nat) returns (ok: bool)
      requires pathIndex < |paths| && begin + size <= |path|
      requires all == AllSegments(paths) && next == Offset(paths, pathIndex + 1)
      modifies this
      ensures ok == (next < |all|)
      ensures if ok then At(next) else AtEnd()
    {
      OffsetEnd(paths);
      pathIndex := pathIndex + 1;
      while pathIndex < |paths|
        invariant pathIndex <= |paths| && Offset(paths, pathIndex) == next
        invariant begin + size <= |path|
      {
        OffsetStep(paths, pathIndex);
        ok := FirstSegment(paths[pathIndex], 0);
        if ok {
          pos := next;
          LocatedAt();
          return true;
        }
        pathIndex := pathIndex + 1;
      }
      return false;
    }

    /** cwk_path_get_next_segment_joined. */
    method NextJoined() returns (ok: bool)
      requires At(pos) || AtEnd()
      modifies this
      ensures ok == (old(pathIndex < |paths|) && old(pos) + 1 < |all|)
      ensures if ok then At(old(pos) + 1) else AtEnd()
      ensures old(Empty()) ==> Empty()
    {
      if pathIndex == |paths| {
        return false;
      }
      OffsetStep(paths, pathIndex);
      ok := NextSegment();
      if ok {
        pos := pos + 1;
        LocatedAt();
        return true;
      }
      ok := NextPath(pos + 1);
    }

    /** cwk_path_get_previous_segment_joined. */
    method PreviousJoined() returns (ok: bool)
      requires At(pos)
      modifies this
      ensures ok == (old(pos) > 0)
      ensures ok ==> At(old(pos) - 1)
    {
      assert Located() && InPath() && Offset(paths, 0) == 0;
      hide Spans, AllSegments, Offset, Root, InPath, At;
      ghost var was := pos;
      ok := PreviousSegment();
      if ok {
        pos := was - 1;
        LocatedAt();
        return true;
      }
      while pathIndex != 0
        invariant pathIndex < |paths| && Offset(paths, pathIndex) == was && !ok
      {
        pathIndex := pathIndex - 1;
        OffsetStep(paths, pathIndex);
        ok := LastSegment(paths[pathIndex], if pathIndex == 0 then Root(paths[0]) else 0);
        if ok {
          pos := was - 1;
          LocatedAt();
          return true;
        }
      }
      return false;
    }

    /** cwk_path_get_segment_type. */
    function SegmentType(): Kind
      reads this
      requires begin + size <= |path|
    {
      KindOf(path[begin..begin + size])
    }

    /** cwk_path_segment_back_will_be_removed. */
    method BackWillBeRemoved() returns (removed: bool)
      requires At(pos)
      modifies this
      ensures old(pos) < |all| && removed == Climbs(all, old(pos))
    {
      hide Located;
      ghost var i := pos;
      var counter := 0;
      while true
        invariant At(pos) && pos <= i < |all| && counter == Balance(all, pos, i)
        invariant !ClimbsFrom(all, pos, i)
        decreases pos
      {
        var more := PreviousJoined();
        if !more {
          return false;
        }
        ClimbsStep(all, pos, i);
        match SegmentType()
        case Normal =>
          counter := counter + 1;
          if counter > 0 {
            return true;
          }
        case Back => counter := counter - 1;
        case Current =>
      }
    }

    /** cwk_path_segment_normal_will_be_removed. */
    method NormalWillBeRemoved() returns (removed: bool)
      requires At(pos)
      modifies this
      ensures old(pos) < |all| && removed == Drops(all, old(pos) + 1, |all|)
    {
      hide Spans, AllSegments, Offset, InPath, Drops;
      ghost var from := pos + 1;
      NoDrops(all, from);
      var counter := 0;
      while true
        invariant At(pos) && from <= pos + 1 && counter == Balance(all, from, pos + 1)
        invariant !Drops(all, from, pos + 1)
        decreases |all| - pos
      {
        var more := NextJoined();
        if !more {
          return false;
        }
        DropsStep(all, from, pos);
        match SegmentType()
        case Normal => counter := counter + 1;
        case Back =>
          counter := counter - 1;
          if counter < 0 {
            DropsOn(all, from, pos + 1, |all|);
            return true;
          }
        case Current =>
      }
    }

    /** cwk_path_segment_will_be_removed: scans with a copy, so the cursor stays where it is. */
    method WillBeRemoved(absolute: bool) returns (removed: bool)
      requires At(pos) || Empty()
      ensures Empty() ==> removed
      ensures At(pos) ==> removed == Removed(all, pos, absolute)
    {
      var copy := new Cursor.Copy(this);
      var kind := SegmentType();
      if kind == Current || (kind == Back && absolute) {
        return true;
      } else if kind == Back {
        removed := copy.BackWillBeRemoved();
      } else {
        removed := copy.NormalWillBeRemoved();
      }
    }

    /** From segment `from` on, the cursor skipped the segments to be removed, and found another
        one or came to the end. */
    ghost predicate Skipped(from: nat, absolute: bool, ok: bool)
      reads this
    {
      if ok then
        && At(pos) && from <= pos && !Removed(all, pos, absolute)
        && forall j: nat :: from <= j < pos ==> Removed(all, j, absolute)
      else
        AtEnd() && forall j: nat :: from <= j < |all| ==> Removed(all, j, absolute)
    }

    /** cwk_path_segment_joined_skip_invisible. */
    method SkipInvisible(absolute: bool) returns (ok: bool)
      requires At(pos) || Empty()
      modifies this
      ensures if old(Empty()) then !ok && Empty() else Skipped(old(pos), absolute, ok)
    {
      hide Spans, AllSegments, Offset, InPath, Removed;
      while true
        invariant if old(Empty()) then Empty() else At(pos) && old(pos) <= pos
        invariant !old(Empty()) ==> forall j: nat :: old(pos) <= j < pos ==> Removed(all, j, absolute)
        decreases |all| - pos
      {
        var removed := WillBeRemoved(absolute);
        if !removed {
          return true;
        }
        var more := NextJoined();
        if !more {
          return false;
        }
      }
    }
  }

  // ----- writing into a buffer of limited size -----

  /** The buffer holds as much of `out` as fits into its first `size` characters. */
  ghost predicate Holds(buffer: array<char>, size: nat, out: string)
    reads buffer
  {
    size <= buffer.Length && forall i :: 0 <= i < |out| && i < size ==> buffer[i] == out[i]
  }

  /** The finished buffer: `out`, cut off where it would not leave room for the terminator,
      and the terminator. With size 0 nothing is written. */
  ghost predicate Wrote(buffer: array<char>, size: nat, out: string)
    reads buffer
  {
    && size <= buffer.Length
    && (size > 0 ==>
         var n := if |out| < size then |out| else size - 1;
         buffer[..n] == out[..n] && buffer[n] == '\0')
  }

  /** Nothing is written at or beyond `size`. */
  twostate predicate Bounded(buffer: array<char>, size: nat)
    reads buffer
  {
    forall i :: size <= i < buffer.Length ==> buffer[i] == old(buffer[i])
  }

  /** cwk_path_output_sized: appends text to what was written so far. */
  method Output(buffer: array<char>, size: nat, ghost out: string, position: nat, text: string)
    returns (length: nat)
    requires Holds(buffer, size, out) && position == |out|
    modifies buffer
    ensures Holds(buffer, size, out + text) && Bounded(buffer, size)
    ensures length == |text|
  {
    var amount := if size > position + |text| then |text|
                  else if size > position then size - position
                  else 0;
    forall i | 0 <= i < amount {
      buffer[position + i] := text[i];
    }
    return |text|;
  }

  /** cwk_path_terminate_output. */
  method Terminate(buffer: array<char>, size: nat, pos: nat, ghost out: string)
    requires Holds(buffer, size, out) && pos <= |out|
    modifies buffer
    ensures Wrote(buffer, size, out[..pos]) && Bounded(buffer, size)
  {
    if size > 0 {
      if pos >= size {
        buffer[size - 1] := '\0';
      } else {
        buffer[pos] := '\0';
      }
    }
  }

  /** One more kept segment: a separator if there was one before, then the text. */
  function Glue(kept: seq<string>, text: string): string {
    if kept == [] then text else [SEPARATOR] + text
  }

  lemma Glued(out: string, kept: seq<string>, text: string)
    ensures out + Glue(kept, text) == (if kept == [] then out else out + [SEPARATOR]) + text
  {
    assert out + ([SEPARATOR] + text) == out + [SEPARATOR] + text;
  }

  lemma JoinStep(root: string, kept: seq<string>, text: string)
    ensures root + Join(kept + [text]) == root + Join(kept) + Glue(kept, text)
  {
    if kept == [] {
      assert root + Join([]) == root;
    } else {
      assert (kept + [text])[..|kept|] == kept;
    }
  }

  method WriteSegment(buffer: array<char>, size: nat, ghost out: string, position: nat, hasOutput: bool, text: string,
                      ghost kept: seq<string>)
    returns (pos: nat)
    requires Holds(buffer, size, out) && position == |out| && hasOutput == (kept != [])
    modifies buffer
    ensures Holds(buffer, size, out + Glue(kept, text)) && Bounded(buffer, size)
    ensures pos == |out + Glue(kept, text)|
  {
    hide Holds, Glue;
    Glued(out, kept, text);
    pos := position;
    ghost var mid := out;
    if hasOutput {
      var n := Output(buffer, size, out, pos, [SEPARATOR]);
      pos := pos + n;
      mid := out + [SEPARATOR];
    }
    var n := Output(buffer, size, mid, pos, text);
    pos := pos + n;
  }

  /** The writing loop of cwk_path_join_and_normalize_multiple, over the segments that are kept. */
  method WriteKept(sj: Cursor, absolute: bool, buffer: array<char>, size: nat, start: nat, ghost root: string)
    returns (pos: nat, hasOutput: bool)
    requires sj.At(0) && Holds(buffer, size, root) && start == |root|
    modifies sj, buffer
    ensures var kept := Kept(sj.all, |sj.all|, absolute);
      && Holds(buffer, size, root + Join(kept)) && pos == |root + Join(kept)|
      && hasOutput == (kept != [])
    ensures Bounded(buffer, size)
  {
    hide Holds, Removed;
    ghost var all := sj.all;
    pos, hasOutput := start, false;
    ghost var k: nat, kept: seq<string> := 0, [];
    assert root + Join([]) == root;
    while true
      invariant sj.At(k)
      invariant kept == Kept(all, k, absolute)
      invariant hasOutput == (kept != []) && pos == |root + Join(kept)|
      invariant Holds(buffer, size, root + Join(kept)) && Bounded(buffer, size)
      decreases |all| - k
    {
      var removed := sj.WillBeRemoved(absolute);
      if !removed {
        JoinStep(root, kept, all[k]);
        pos := WriteSegment(buffer, size, root + Join(kept), pos, hasOutput, sj.path[sj.begin..sj.begin + sj.size], kept);
        hasOutput := true;
        kept := kept + [all[k]];
      }
      k := k + 1;
      assert kept == Kept(all, k, absolute);
      var more := sj.NextJoined();
      if !more {
        assert k == |all|;
        return;
      }
    }
  }

  lemma EmptyJoin()
    ensures Join([]) == ""
  {
  }

  /** The normalised text: the root, the resolved segments, and a dot when there is nothing to write. */
  lemma NormalizedText(paths: seq<string>)
    requires paths != []
    ensures var text := paths[0][..Root(paths[0])] + Join(Resolved(paths));
      Normalized(paths) == if AllSegments(paths) != [] && Resolved(paths) == [] && text == "" then text + "." else text
  {
  }

  /** cwk_path_join_and_normalize_multiple. The result is the length of the whole output, also
      when the buffer is too short for it. */
  method JoinAndNormalizeMultiple(paths: seq<string>, buffer: array<char>, size: nat) returns (pos: nat)
    requires paths != [] && size <= buffer.Length
    modifies buffer
    ensures pos == |Normalized(paths)|
    ensures Wrote(buffer, size, Normalized(paths)) && Bounded(buffer, size)
  {
    hide Normalized, Holds, Wrote, AllSegments, Join;
    NormalizedText(paths);
    EmptyJoin();
    var absolute := Root(paths[0]) == 1;
    ghost var root := paths[0][..Root(paths[0])];
    KeptIsNormal(AllSegments(paths), absolute);
    pos := Root(paths[0]);
    var _ := Output(buffer, size, "", 0, paths[0][..pos]);
    assert "" + root == root == root + "";
    var sj := new Cursor(paths);
    var more := sj.FirstJoined();
    ghost var out := root;
    if more {
      var hasOutput;
      pos, hasOutput := WriteKept(sj, absolute, buffer, size, pos, root);
      out := root + Join(Resolved(paths));
      if !hasOutput && pos == 0 {
        var n := Output(buffer, size, out, pos, ".");
        pos := pos + n;
        out := out + ".";
      }
    }
    Terminate(buffer, size, pos, out);
    assert out[..pos] == out;
  }

  /** cwk_path_normalize. */
  method Normalize(path: string, buffer: array<char>, size: nat) returns (pos: nat)
    requires size <= buffer.Length
    modifies buffer
    ensures pos == |Normalized([path])| && Wrote(buffer, size, Normalized([path])) && Bounded(buffer, size)
  {
    pos := JoinAndNormalizeMultiple([path], buffer, size);
  }

  /** cwk_path_join. */
  method Join2(a: string, b: string, buffer: array<char>, size: nat) returns (pos: nat)
    requires size <= buffer.Length
    modifies buffer
    ensures pos == |Normalized([a, b])| && Wrote(buffer, size, Normalized([a, b])) && Bounded(buffer, size)
  {
    pos := JoinAndNormalizeMultiple([a, b], buffer, size);
  }

  /** The two calls of obtain_source_file_id: the length that the first one returns for an empty
      buffer is enough for the second one to write the whole path. */
  method FullPath(base: string, path: string) returns (full: array<char>)
    ensures full.Length == |Normalized([base, path])| + 1
    ensures full[..full.Length - 1] == Normalized([base, path]) && full[full.Length - 1] == '\0'
  {
    var none := new char[0];
    var n := Join2(base, path, none, 0);
    full := new char[n + 1];
    n := Join2(base, path, full, n + 1);
    assert Normalized([base, path])[..n] == Normalized([base, path]);
  }

  // ----- relative paths -----

  /** What is left of a path whose cursor stands before segment `from`. */
  ghost predicate Left(sj: Cursor, available: bool, from: nat)
    reads sj
  {
    if available then sj.At(from) || (sj.Empty() && from == 0) else from == |sj.all|
  }

  /** One turn of cwk_path_segment_joined_skip_invisible, told in terms of what is left. */
  method Skip(sj: Cursor, absolute: bool, ghost from: nat) returns (ok: bool, ghost to: nat)
    requires Left(sj, true, from) && from <= |sj.all|
    modifies sj
    ensures from <= to <= |sj.all|
    ensures Rest(sj, from, absolute) == Rest(sj, to, absolute)
    ensures if ok
      then
        && sj.At(to) && to < |sj.all| && Rest(sj, to, absolute) == [sj.all[to]] + Rest(sj, to + 1, absolute)
        && sj.begin + sj.size <= |sj.path| && sj.path[sj.begin..sj.begin + sj.size] == sj.all[to]
      else to == |sj.all| && Rest(sj, to, absolute) == []
  {
    ok := sj.SkipInvisible(absolute);
    to := if ok then sj.pos else |sj.all|;
    KeptSkip(sj.all, from, to, absolute);
  }

  method Step(sj: Cursor, ghost from: nat) returns (ok: bool)
    requires sj.At(from)
    modifies sj
    ensures from + 1 <= |sj.all| && Left(sj, ok, from + 1)
  {
    ok := sj.NextJoined();
  }

  ghost function Rest(sj: Cursor, from: nat, absolute: bool): seq<string>
    requires from <= |sj.all|
  {
    KeptFrom(sj.all, from, absolute)
  }

  ghost function All(sj: Cursor, absolute: bool): seq<string> {
    Kept(sj.all, |sj.all|, absolute)
  }

  lemma RestOfAll(sj: Cursor, absolute: bool)
    ensures Rest(sj, 0, absolute) == All(sj, absolute)
  {
    KeptSplits(sj.all, 0, absolute);
    assert [] + Rest(sj, 0, absolute) == Rest(sj, 0, absolute);
  }

  lemma Diverged(done: seq<string>, a: seq<string>, b: seq<string>)
    requires a == [] || b == [] || a[0] != b[0]
    ensures (done + a)[Common(done + a, done + b)..] == a
    ensures (done + b)[Common(done + a, done + b)..] == b
  {
    CommonIs(done, a, b);
  }

  /** cwk_path_skip_segments_until_diverge: past the common prefix of the two resolved paths. */
  method SkipUntilDiverge(bsj: Cursor, osj: Cursor, absolute: bool)
    returns (baseLeft: bool, otherLeft: bool, ghost b: nat, ghost o: nat)
    requires bsj != osj && Left(bsj, true, 0) && Left(osj, true, 0)
    modifies bsj, osj
    ensures b <= |bsj.all| && o <= |osj.all| && Left(bsj, baseLeft, b) && Left(osj, otherLeft, o)
    ensures var base, other := All(bsj, absolute), All(osj, absolute);
      && Rest(bsj, b, absolute) == base[Common(base, other)..]
      && Rest(osj, o, absolute) == other[Common(base, other)..]
  {
    hide Cursor.Located, Matched;
    ghost var done: seq<string> := [];
    baseLeft, otherLeft, b, o := true, true, 0, 0;
    MatchedBegin(bsj, absolute);
    MatchedBegin(osj, absolute);
    while true
      invariant b <= |bsj.all| && o <= |osj.all|
      invariant Left(bsj, true, b) && Left(osj, true, o)
      invariant Matched(bsj, absolute, done, b) && Matched(osj, absolute, done, o)
      decreases |bsj.all| - b
    {
      ghost var b0, o0 := b, o;
      baseLeft, b := Skip(bsj, absolute, b);
      otherLeft, o := Skip(osj, absolute, o);
      MatchedSkip(bsj, absolute, done, b0, b);
      MatchedSkip(osj, absolute, done, o0, o);
      if !baseLeft || !otherLeft {
        break;
      }
      if bsj.path[bsj.begin..bsj.begin + bsj.size] != osj.path[osj.begin..osj.begin + osj.size] {
        break;
      }
      MatchedStep(bsj, absolute, done, b);
      MatchedStep(osj, absolute, done, o);
      baseLeft := Step(bsj, b);
      otherLeft := Step(osj, o);
      done := done + [bsj.all[b]];
      b, o := b + 1, o + 1;
      if !(baseLeft && otherLeft) {
        break;
      }
    }
    MatchedEnd(bsj, osj, absolute, done, b, o);
  }

  /** What is kept of all segments is `done`, and then what is left. */
  ghost predicate Matched(sj: Cursor, absolute: bool, done: seq<string>, at: nat) {
    at <= |sj.all| && All(sj, absolute) == done + Rest(sj, at, absolute)
  }

  lemma MatchedBegin(sj: Cursor, absolute: bool)
    ensures Matched(sj, absolute, [], 0)
  {
    RestOfAll(sj, absolute);
    assert [] + Rest(sj, 0, absolute) == Rest(sj, 0, absolute);
  }

  lemma MatchedSkip(sj: Cursor, absolute: bool, done: seq<string>, from: nat, to: nat)
    requires Matched(sj, absolute, done, from) && to <= |sj.all| && Rest(sj, from, absolute) == Rest(sj, to, absolute)
    ensures Matched(sj, absolute, done, to)
  {
  }

  lemma MatchedStep(sj: Cursor, absolute: bool, done: seq<string>, at: nat)
    requires Matched(sj, absolute, done, at) && at < |sj.all|
    requires Rest(sj, at, absolute) == [sj.all[at]] + Rest(sj, at + 1, absolute)
    ensures Matched(sj, absolute, done + [sj.all[at]], at + 1)
  {
    Regroup(done, [sj.all[at]], Rest(sj, at + 1, absolute));
  }

  lemma MatchedEnd(bsj: Cursor, osj: Cursor, absolute: bool, done: seq<string>, b: nat, o: nat)
    requires Matched(bsj, absolute, done, b) && Matched(osj, absolute, done, o)
    requires var x, y := Rest(bsj, b, absolute), Rest(osj, o, absolute); x == [] || y == [] || x[0] != y[0]
    ensures var base, other := All(bsj, absolute), All(osj, absolute);
      && Rest(bsj, b, absolute) == base[Common(base, other)..]
      && Rest(osj, o, absolute) == other[Common(base, other)..]
  {
    Diverged(done, Rest(bsj, b, absolute), Rest(osj, o, absolute));
  }

  /** What a writing loop makes of the segments that are left. */
  function Marks(back: bool, rest: seq<string>): seq<string> {
    if back then Ups(|rest|) else rest
  }

  lemma MarksStep(out: seq<string>, back: bool, text: string, rest: seq<string>)
    ensures out + Marks(back, [text] + rest) == out + [if back then ".." else text] + Marks(back, rest)
  {
    assert Ups(1 + |rest|) == [".."] + Ups(|rest|);
  }

  method WriteMark(buffer: array<char>, size: nat, ghost out: seq<string>, position: nat, text: string)
    returns (pos: nat)
    requires Holds(buffer, size, Trail(out)) && position == |Trail(out)|
    modifies buffer
    ensures Holds(buffer, size, Trail(out + [text])) && pos == |Trail(out + [text])| && Bounded(buffer, size)
  {
    TrailStep(out, text);
    pos := Output(buffer, size, Trail(out), position, text);
    var n := Output(buffer, size, Trail(out) + text, position + pos, [SEPARATOR]);
    pos := position + pos + n;
  }

  /** The two writing loops of cwk_path_get_relative: for each kept segment that is left, `..`
      (`back`) or the segment itself, with a separator behind it. */
  method WriteLeft(sj: Cursor, absolute: bool, back: bool, buffer: array<char>, size: nat, start: nat,
                   ghost from: nat, ghost written: seq<string>)
    returns (pos: nat, hasOutput: bool)
    requires from <= |sj.all| && Left(sj, true, from)
    requires Holds(buffer, size, Trail(written)) && start == |Trail(written)|
    modifies sj, buffer
    ensures var out := written + Marks(back, Rest(sj, from, absolute));
      && Holds(buffer, size, Trail(out)) && pos == |Trail(out)|
      && hasOutput == (Rest(sj, from, absolute) != [])
    ensures Bounded(buffer, size)
  {
    hide Cursor.Located, Marks, Holds, Trail, Writing;
    pos, hasOutput := start, false;
    ghost var at, out := from, written;
    WritingBegin(sj, absolute, back, from, written);
    while true
      invariant Left(sj, true, at) && Writing(sj, absolute, back, from, written, at, out, hasOutput)
      invariant at <= |sj.all| && Holds(buffer, size, Trail(out)) && pos == |Trail(out)| && Bounded(buffer, size)
      decreases |sj.all| - at
    {
      var ok;
      ghost var before := at;
      ok, at := Skip(sj, absolute, at);
      WritingSkip(sj, absolute, back, from, written, before, at, out, hasOutput);
      if !ok {
        break;
      }
      WritingStep(sj, absolute, back, from, written, at, out, hasOutput);
      hasOutput := true;
      var text := if back then ".." else sj.path[sj.begin..sj.begin + sj.size];
      pos := WriteMark(buffer, size, out, pos, text);
      out := out + [text];
      var more := Step(sj, at);
      at := at + 1;
      if !more {
        break;
      }
    }
    WritingEnd(sj, absolute, back, from, written, at, out, hasOutput);
  }

  /** The marks written so far, with those still to come, are all the marks; `hasOutput` tells
      whether there was one. */
  ghost predicate Writing(sj: Cursor, absolute: bool, back: bool, from: nat, written: seq<string>,
                          at: nat, out: seq<string>, hasOutput: bool) {
    && from <= |sj.all| && at <= |sj.all|
    && out + Marks(back, Rest(sj, at, absolute)) == written + Marks(back, Rest(sj, from, absolute))
    && (hasOutput ==> Rest(sj, from, absolute) != [])
    && (!hasOutput ==> Rest(sj, from, absolute) == Rest(sj, at, absolute))
  }

  lemma WritingBegin(sj: Cursor, absolute: bool, back: bool, from: nat, written: seq<string>)
    requires from <= |sj.all|
    ensures Writing(sj, absolute, back, from, written, from, written, false)
  {
  }

  lemma WritingSkip(sj: Cursor, absolute: bool, back: bool, from: nat, written: seq<string>,
                    at: nat, to: nat, out: seq<string>, hasOutput: bool)
    requires Writing(sj, absolute, back, from, written, at, out, hasOutput)
    requires to <= |sj.all| && Rest(sj, at, absolute) == Rest(sj, to, absolute)
    ensures Writing(sj, absolute, back, from, written, to, out, hasOutput)
  {
  }

  lemma WritingStep(sj: Cursor, absolute: bool, back: bool, from: nat, written: seq<string>,
                    at: nat, out: seq<string>, hasOutput: bool)
    requires Writing(sj, absolute, back, from, written, at, out, hasOutput) && at < |sj.all|
    requires Rest(sj, at, absolute) == [sj.all[at]] + Rest(sj, at + 1, absolute)
    ensures Writing(sj, absolute, back, from, written, at + 1, out + [if back then ".." else sj.all[at]], true)
  {
    hide Marks;
    MarksStep(out, back, sj.all[at], Rest(sj, at + 1, absolute));
  }

  lemma WritingEnd(sj: Cursor, absolute: bool, back: bool, from: nat, written: seq<string>,
                   at: nat, out: seq<string>, hasOutput: bool)
    requires Writing(sj, absolute, back, from, written, at, out, hasOutput) && Rest(sj, at, absolute) == []
    ensures out == written + Marks(back, Rest(sj, from, absolute)) && hasOutput == (Rest(sj, from, absolute) != [])
  {
    assert Marks(back, []) == [] && out + [] == out;
  }

  /** cwk_path_get_relative. */
  method GetRelative(base: string, path: string, buffer: array<char>, size: nat) returns (pos: nat)
    requires size <= buffer.Length
    modifies buffer
    ensures pos == |Relative(base, path)|
    ensures Wrote(buffer, size, Relative(base, path)) && Bounded(buffer, size)
  {
    hide Cursor.Located, All, Rest, RelativeSegments, Join;
    if Root(base) != Root(path) {
      Terminate(buffer, size, 0, "");
      return 0;
    }
    var absolute := Root(base) == 1;
    var bsj := new Cursor([base]);
    var osj := new Cursor([path]);
    var _ := bsj.FirstJoined();
    var _ := osj.FirstJoined();
    var baseLeft, otherLeft;
    ghost var b, o;
    baseLeft, otherLeft, b, o := SkipUntilDiverge(bsj, osj, absolute);
    RelativeParts(base, path, bsj, osj, b, o);
    pos := WriteRelative(bsj, osj, absolute, baseLeft, otherLeft, buffer, size, b, o);
  }

  lemma RelativeParts(base: string, path: string, bsj: Cursor, osj: Cursor, b: nat, o: nat)
    requires bsj.all == AllSegments([base]) && osj.all == AllSegments([path]) && b <= |bsj.all| && o <= |osj.all|
    requires Root(base) == Root(path)
    requires var absolute := Root(base) == 1;
      var x, y := All(bsj, absolute), All(osj, absolute);
      Rest(bsj, b, absolute) == x[Common(x, y)..] && Rest(osj, o, absolute) == y[Common(x, y)..]
    ensures var absolute := Root(base) == 1;
      RelativeSegments(base, path) == Ups(|Rest(bsj, b, absolute)|) + Rest(osj, o, absolute)
  {
    KeptIsNormal(bsj.all, Root(base) == 1);
    KeptIsNormal(osj.all, Root(base) == 1);
  }

  /** The writing half of cwk_path_get_relative. */
  method WriteRelative(bsj: Cursor, osj: Cursor, absolute: bool, baseLeft: bool, otherLeft: bool,
                       buffer: array<char>, size: nat, ghost b: nat, ghost o: nat)
    returns (pos: nat)
    requires b <= |bsj.all| && o <= |osj.all| && Left(bsj, baseLeft, b) && Left(osj, otherLeft, o)
    requires bsj != osj && size <= buffer.Length
    modifies bsj, osj, buffer
    ensures var out := Ups(|Rest(bsj, b, absolute)|) + Rest(osj, o, absolute);
      var text := if out == [] then "." else Join(out);
      pos == |text| && Wrote(buffer, size, text)
    ensures Bounded(buffer, size)
  {
    hide Cursor.Located, Join, Trail;
    ghost var ups, rest := Ups(|Rest(bsj, b, absolute)|), Rest(osj, o, absolute);
    assert [] + ups == ups;
    TrailEmpty();
    var hasOutput := false;
    pos := 0;
    if baseLeft {
      pos, hasOutput := WriteLeft(bsj, absolute, true, buffer, size, pos, b, []);
    }
    if otherLeft {
      var more;
      pos, more := WriteLeft(osj, absolute, false, buffer, size, pos, o, ups);
      hasOutput := hasOutput || more;
    } else {
      assert ups + rest == ups;
    }
    pos := Finish(buffer, size, ups + rest, pos, hasOutput);
  }

  lemma TrailEmpty()
    ensures Trail([]) == ""
  {
  }

  /** The end of cwk_path_get_relative: without the last separator, or "." if nothing was written. */
  method Finish(buffer: array<char>, size: nat, ghost out: seq<string>, position: nat, hasOutput: bool)
    returns (pos: nat)
    requires Holds(buffer, size, Trail(out)) && position == |Trail(out)| && hasOutput == (out != [])
    modifies buffer
    ensures var text := if out == [] then "." else Join(out);
      pos == |text| && Wrote(buffer, size, text)
    ensures Bounded(buffer, size)
  {
    if hasOutput {
      TrailJoin(out);
      pos := position - 1;
      Terminate(buffer, size, pos, Trail(out));
    } else {
      var n := Output(buffer, size, Trail(out), position, ".");
      pos := position + n;
      Terminate(buffer, size, pos, ".");
    }
  }
}
