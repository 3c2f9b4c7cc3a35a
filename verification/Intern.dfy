// String interning of source/intern.c: equal strings get the same pointer for good. A pointer is
// the number of the copy in the arena.
module Intern {
  import opened Bits
  import opened Circular

  const INTERN_DEFAULT_CAP: nat := 256

  /** struct intern_entry; in a free one the string is NULL. */
  datatype Entry = Free | Taken(str: nat, hash: nat, len: nat)

  /** The `start` argument: a string elsewhere, or the first len bytes at an interned pointer,
      where the terminating zero can be read too. */
  datatype Start = Outside(bytes: seq<byte>) | Interned(p: nat, len: nat) {
    predicate Readable(strings: seq<seq<byte>>) {
      Interned? ==> p < |strings| && len <= |strings[p]| + 1
    }

    function Bytes(strings: seq<seq<byte>>): seq<byte>
      requires Readable(strings)
    {
      match this
      case Outside(bytes) => bytes
      case Interned(p, len) => (strings[p] + [0])[..len]
    }
  }

  // ----- the table as a value -----

  /** The slot where a walk for this hash starts. */
  function Home(hash: nat, cap: nat): (h: nat)
    requires cap > 0
    ensures h < cap
  {
    hash % cap
  }

  predicate HoldsString(es: seq<Entry>, s: int, p: nat) {
    0 <= s < |es| && es[s].Taken? && es[s].str == p
  }

  ghost predicate Present(es: seq<Entry>, p: nat) {
    exists s :: HoldsString(es, s, p)
  }

  /** The walk from slot h meets no free slot before s. */
  ghost predicate Reaches(es: seq<Entry>, h: nat, s: nat)
    requires h < |es| && s < |es|
  {
    forall q :: 0 <= q < |es| && Gap(h, q, |es|) < Gap(h, s, |es|) ==> es[q].Taken?
  }

  predicate Describes(e: Entry, strings: seq<seq<byte>>, hash: seq<byte> -> nat) {
    e.Taken? && e.str < |strings| && e.len == |strings[e.str]| && e.hash == hash(strings[e.str])
  }

  ghost predicate Sound(es: seq<Entry>, strings: seq<seq<byte>>, hash: seq<byte> -> nat) {
    && |es| > 0
    && (forall s :: 0 <= s < |es| && es[s].Taken? ==> Describes(es[s], strings, hash))
    && (forall s, t :: 0 <= s < t < |es| && es[s].Taken? && es[t].Taken? ==> es[s].str != es[t].str)
    && (forall s :: 0 <= s < |es| && es[s].Taken? ==> Reaches(es, Home(es[s].hash, |es|), s))
  }

  ghost predicate Covers(es: seq<Entry>, strings: seq<seq<byte>>) {
    forall p :: 0 <= p < |strings| ==> Present(es, p)
  }

  ghost predicate AllDifferent(strings: seq<seq<byte>>) {
    forall p, q :: 0 <= p < q < |strings| ==> strings[p] != strings[q]
  }

  /** With fewer strings than slots, some slot is free. */
  lemma FreeSlot(es: seq<Entry>, strings: seq<seq<byte>>, hash: seq<byte> -> nat) returns (z: nat)
    requires Sound(es, strings, hash) && |strings| < |es|
    ensures z < |es| && es[z].Free?
  {
    if forall s :: 0 <= s < |es| ==> es[s].Taken? {
      var used := seq(|es|, s requires 0 <= s < |es| => es[s].str);
      Pigeonhole(used, |strings|);
      assert false;
    }
    z :| 0 <= z < |es| && es[z].Free?;
  }

  /** Taking the first free slot of an entry's walk keeps the table sound. */
  lemma PutSound(es: seq<Entry>, strings: seq<seq<byte>>, hash: seq<byte> -> nat, slot: nat, e: Entry)
    requires Sound(es, strings, hash) && Describes(e, strings, hash)
    requires slot < |es| && es[slot].Free? && Reaches(es, Home(e.hash, |es|), slot)
    requires forall s :: !HoldsString(es, s, e.str)
    ensures Sound(es[slot := e], strings, hash)
  {
    var es' := es[slot := e];
    forall s | 0 <= s < |es| && es'[s].Taken?
      ensures Reaches(es', Home(es'[s].hash, |es|), s)
    {
      if s != slot {
        assert Reaches(es, Home(es[s].hash, |es|), s);
      }
    }
    forall s, t | 0 <= s < t < |es| && es'[s].Taken? && es'[t].Taken?
      ensures es'[s].str != es'[t].str
    {
      assert !HoldsString(es, s, e.str) && !HoldsString(es, t, e.str);
    }
  }

  /** A new string at the end of the arena changes nothing for the others. */
  lemma MoreStrings(es: seq<Entry>, strings: seq<seq<byte>>, hash: seq<byte> -> nat, bytes: seq<byte>)
    requires Sound(es, strings, hash)
    ensures Sound(es, strings + [bytes], hash) && forall s :: !HoldsString(es, s, |strings|)
  {
  }

  // ----- looking a string up -----

  /** The test of intern_str: the same pointer, or the same hash, length and bytes. */
  predicate Hit(e: Entry, start: Start, h: nat, bytes: seq<byte>, strings: seq<seq<byte>>)
    requires e.Taken? && e.str < |strings|
  {
    (start.Interned? && e.str == start.p) || (e.hash == h && e.len == |bytes| && strings[e.str] == bytes)
  }

  /** The walk passes every slot before s: they are taken, and none of them passes the test. */
  ghost predicate Passes(es: seq<Entry>, start: Start, h: nat, bytes: seq<byte>, strings: seq<seq<byte>>, s: nat)
    requires s < |es|
  {
    forall q :: 0 <= q < |es| && Gap(Home(h, |es|), q, |es|) < Gap(Home(h, |es|), s, |es|) ==>
      es[q].Taken? && es[q].str < |strings| && !Hit(es[q], start, h, bytes, strings)
  }

  /** Where the lookup ends: at a free slot, or at an entry that passes the test. */
  ghost predicate Ends(es: seq<Entry>, start: Start, h: nat, bytes: seq<byte>, strings: seq<seq<byte>>, s: nat) {
    && s < |es| && Passes(es, start, h, bytes, strings, s)
    && (es[s].Free? || (es[s].str < |strings| && Hit(es[s], start, h, bytes, strings)))
  }

  /** A free slot is only reached by a string that is not there. */
  lemma FreeMeansNew(es: seq<Entry>, strings: seq<seq<byte>>, hash: seq<byte> -> nat, start: Start, bytes: seq<byte>, s: nat)
    requires Sound(es, strings, hash) && Covers(es, strings)
    requires Ends(es, start, hash(bytes), bytes, strings, s) && es[s].Free?
    ensures bytes !in strings && (start.Interned? ==> start.p >= |strings| || strings[start.p] != bytes)
  {
    hide Sound, Passes;
    if bytes in strings {
      var p :| 0 <= p < |strings| && strings[p] == bytes;
      assert Present(es, p);
      var t :| HoldsString(es, t, p);
      MetBefore(es, strings, hash, start, bytes, s, t);
    }
  }

  /** A walk that ends at a free slot has not missed an entry with the same bytes. */
  lemma MetBefore(es: seq<Entry>, strings: seq<seq<byte>>, hash: seq<byte> -> nat, start: Start, bytes: seq<byte>, s: nat, t: nat)
    requires Sound(es, strings, hash) && Ends(es, start, hash(bytes), bytes, strings, s) && es[s].Free?
    requires t < |es| && es[t].Taken? && es[t].str < |strings|
    ensures strings[es[t].str] != bytes
  {
  }

  /** The walk for the bytes is cut short by the entry of the very pointer passed in, though that
      is a longer or shorter string. */
  ghost predicate Intercepted(es: seq<Entry>, start: Start, h: nat, bytes: seq<byte>, strings: seq<seq<byte>>) {
    start.Interned? && start.p < |strings| && |strings[start.p]| != start.len &&
    exists s :: HoldsString(es, s, start.p) && Passes(es, start, h, bytes, strings, s)
  }

  lemma EndUnique(es: seq<Entry>, start: Start, h: nat, bytes: seq<byte>, strings: seq<seq<byte>>, s: nat, t: nat)
    requires |es| > 0 && Ends(es, start, h, bytes, strings, s) && Ends(es, start, h, bytes, strings, t)
    ensures s == t
  {
    assert Gap(Home(h, |es|), s, |es|) == Gap(Home(h, |es|), t, |es|);
  }

  /** An entry that passes the test is the string asked for, unless the walk was cut short. */
  lemma HitIff(es: seq<Entry>, strings: seq<seq<byte>>, hash: seq<byte> -> nat, start: Start, s: nat)
    requires Sound(es, strings, hash) && start.Readable(strings)
    requires Ends(es, start, hash(start.Bytes(strings)), start.Bytes(strings), strings, s) && es[s].Taken?
    ensures var bytes := start.Bytes(strings);
      strings[es[s].str] == bytes <==> !Intercepted(es, start, hash(bytes), bytes, strings)
  {
    var bytes := start.Bytes(strings);
    var h := hash(bytes);
    if Intercepted(es, start, h, bytes, strings) {
      var t :| HoldsString(es, t, start.p) && Passes(es, start, h, bytes, strings, t);
      EndUnique(es, start, h, bytes, strings, s, t);
    } else if strings[es[s].str] != bytes {
      assert HoldsString(es, s, start.p);
    }
  }

  lemma AtHome(es: seq<Entry>, start: Start, h: nat, bytes: seq<byte>, strings: seq<seq<byte>>)
    requires es != []
    ensures Passes(es, start, h, bytes, strings, Home(h, |es|))
  {
  }

  lemma EntriesNamed(es: seq<Entry>, strings: seq<seq<byte>>, hash: seq<byte> -> nat)
    requires Sound(es, strings, hash)
    ensures forall q :: 0 <= q < |es| && es[q].Taken? ==> es[q].str < |strings|
  {
  }

  /** The walk goes on from a slot that is taken by another string. */
  lemma PassOn(es: seq<Entry>, start: Start, h: nat, bytes: seq<byte>, strings: seq<seq<byte>>, s: nat, z: nat)
    requires s < |es| && z < |es| && es[z].Free? && Passes(es, start, h, bytes, strings, s)
    requires es[s].Taken? && es[s].str < |strings| && !Hit(es[s], start, h, bytes, strings)
    ensures var home, next := Home(h, |es|), Next(s, |es|);
      && Passes(es, start, h, bytes, strings, next)
      && Gap(home, s, |es|) < Gap(home, next, |es|) <= Gap(home, z, |es|)
  {
    WalkOn(Home(h, |es|), s, z, |es|);
  }

  // ----- the table -----

  class InternTable {
    const hash: seq<byte> -> nat
    var strings: seq<seq<byte>>  // the copies in the arena
    var entries: array<Entry>
    var len: nat
    var cap: nat

    ghost predicate Valid()
      reads this, entries
    {
      && cap == entries.Length && INTERN_DEFAULT_CAP <= cap && IsPow2(cap)
      && len == |strings| <= (cap * 7) / 10
      && Sound(entries[..], strings, hash) && Covers(entries[..], strings) && AllDifferent(strings)
    }

    /** init_intern_table. */
    constructor (hash: seq<byte> -> nat)
      ensures Valid() && fresh(entries) && strings == [] && cap == INTERN_DEFAULT_CAP && this.hash == hash
    {
      this.hash := hash;
      strings, len, cap := [], 0, INTERN_DEFAULT_CAP;
      entries := new Entry[INTERN_DEFAULT_CAP](_ => Free);
      new;
      DefaultCap();
    }

    /** The probe loop of intern_str. */
    method Search(start: Start, h: nat, bytes: seq<byte>) returns (idx: nat)
      requires Valid()
      ensures Ends(entries[..], start, h, bytes, strings, idx)
    {
      hide Hit, Passes, Gap, Home, Sound, Covers, AllDifferent, IsPow2;
      ghost var es, home := entries[..], Home(h, cap);
      ghost var z := FreeSlot(es, strings, hash);
      EntriesNamed(es, strings, hash);
      AtHome(es, start, h, bytes, strings);
      MaskHome(h, cap);
      idx := And(h, cap - 1);
      hide And, Valid;
      while entries[idx].Taken? && !Hit(entries[idx], start, h, bytes, strings)
        invariant idx < cap && Passes(es, start, h, bytes, strings, idx)
        decreases Gap(home, z, cap) - Gap(home, idx, cap)
      {
        PassOn(es, start, h, bytes, strings, idx, z);
        MaskNext(idx, cap);
        idx := And(idx + 1, cap - 1);
      }
    }

    /** The probe loop of grow_and_rehash. */
    method FirstFree(table: array<Entry>, h: nat, ghost z: nat) returns (idx: nat)
      requires IsPow2(table.Length) && z < table.Length && table[z].Free?
      ensures idx < table.Length && table[idx].Free? && Reaches(table[..], Home(h, table.Length), idx)
    {
      ghost var home := Home(h, table.Length);
      MaskHome(h, table.Length);
      idx := And(h, table.Length - 1);
      while table[idx].Taken?
        invariant idx < table.Length && Reaches(table[..], home, idx)
        decreases Gap(home, z, table.Length) - Gap(home, idx, table.Length)
      {
        WalkOn(home, idx, z, table.Length);
        MaskNext(idx, table.Length);
        idx := And(idx + 1, table.Length - 1);
      }
    }

    /** grow_and_rehash: the same strings in a table twice as large. */
    method Grow()
      requires Valid()
      modifies this`entries, this`cap
      ensures Valid() && cap == 2 * old(cap) && fresh(entries)
    {
      var newCap := cap * 2;
      DoublePow2(cap);
      var table := new Entry[newCap](_ => Free);
      ghost var es := entries[..];
      for i := 0 to cap
        invariant entries[..] == es && fresh(table) && table.Length == newCap && Sound(table[..], strings, hash)
        invariant Moved(es, table[..], i)
      {
        var e := entries[i];
        if e.Taken? {
          ghost var z := FreeSlot(table[..], strings, hash);
          var idx := FirstFree(table, e.hash, z);
          MovedOne(es, table[..], i, idx, strings, hash);
          PutSound(table[..], strings, hash, idx, e);
          table[idx] := e;
        }
      }
      MovedAll(es, table[..], strings);
      entries, cap := table, newCap;
    }

    /** intern_str. The pointers handed out before stay as they are, and the result points to the
        bytes asked for unless the walk was intercepted. */
    method InternStr(start: Start) returns (p: nat)
      requires Valid() && start.Readable(strings)
      modifies this, entries
      ensures Valid() && (entries == old(entries) || fresh(entries))
      ensures cap == if old(len) >= (old(cap) * 7) / 10 then 2 * old(cap) else old(cap)
      ensures old(len) < (old(cap) * 7) / 10 ==> entries == old(entries) && Extends(old(entries[..]), entries[..])
      ensures var bytes := start.Bytes(old(strings));
        && strings == (if p == |old(strings)| then old(strings) + [bytes] else old(strings)) && p < |strings|
        && old(strings) <= strings
        && (strings[p] == bytes <==> !Intercepted(entries[..], start, hash(bytes), bytes, strings))
        && (p == |old(strings)| ==> bytes !in old(strings))
      ensures start.Outside? || start.len == |old(strings)[start.p]| ==> strings[p] == start.Bytes(old(strings))
      ensures var bytes := start.Bytes(old(strings));
        old(len) < (old(cap) * 7) / 10 ==>
          (strings[p] == bytes <==> !Intercepted(old(entries[..]), start, hash(bytes), bytes, old(strings)))
    {
      var bytes := start.Bytes(strings);
      var h := hash(bytes);
      if len >= (cap * 7) / 10 {
        Grow();
      }
      var idx := Search(start, h, bytes);
      if entries[idx].Free? {
        NotInterceptedBefore(entries[..], strings, idx, start, h, bytes);
        p := Insert(start, h, bytes, idx);
      } else {
        HitIff(entries[..], strings, hash, start, idx);
        p := entries[idx].str;
      }
    }

    /** The bytes are copied, and the entry for the copy goes where the search ended. */
    method Insert(start: Start, h: nat, bytes: seq<byte>, idx: nat) returns (p: nat)
      requires Valid() && len < (cap * 7) / 10 && start.Readable(strings)
      requires bytes == start.Bytes(strings) && h == hash(bytes)
      requires Ends(entries[..], start, h, bytes, strings, idx) && entries[idx].Free?
      modifies this`strings, this`len, entries
      ensures Valid() && p == |old(strings)| && strings == old(strings) + [bytes] && bytes !in old(strings)
      ensures !Intercepted(entries[..], start, h, bytes, strings) && Extends(old(entries[..]), entries[..])
    {
      ghost var es := entries[..];
      FreeMeansNew(es, strings, hash, start, bytes, idx);
      p := |strings|;
      MoreStrings(es, strings, hash, bytes);
      strings := strings + [bytes];
      ghost var e := Taken(p, h, |bytes|);
      PutSound(es, strings, hash, idx, e);
      entries[idx] := Taken(p, h, |bytes|);
      len := len + 1;
      InsertCovers(es, old(strings), idx, e, bytes);
      NotIntercepted(es, old(strings), idx, e, start, h, bytes);
    }
  }

  /** Entries stay where they are. */
  ghost predicate Extends(es: seq<Entry>, es': seq<Entry>) {
    |es'| == |es| && forall s :: 0 <= s < |es| && es[s].Taken? ==> es'[s] == es[s]
  }

  /** The new table holds just the first n entries of the old one. */
  ghost predicate Moved(es: seq<Entry>, table: seq<Entry>, n: nat)
    requires n <= |es|
  {
    && (forall j :: 0 <= j < n && es[j].Taken? ==> Present(table, es[j].str))
    && (forall s :: 0 <= s < |table| && table[s].Taken? ==> exists j :: 0 <= j < n && es[j] == table[s])
  }

  lemma MovedOne(es: seq<Entry>, table: seq<Entry>, n: nat, idx: nat, strings: seq<seq<byte>>, hash: seq<byte> -> nat)
    requires Sound(es, strings, hash) && n < |es| && es[n].Taken? && Moved(es, table, n)
    requires idx < |table| && table[idx].Free?
    ensures Moved(es, table[idx := es[n]], n + 1)
    ensures forall s :: !HoldsString(table, s, es[n].str)
  {
    var table' := table[idx := es[n]];
    assert HoldsString(table', idx, es[n].str);
    forall j | 0 <= j < n && es[j].Taken?
      ensures Present(table', es[j].str)
    {
      var s :| HoldsString(table, s, es[j].str);
      assert HoldsString(table', s, es[j].str);
    }
  }

  lemma MovedAll(es: seq<Entry>, table: seq<Entry>, strings: seq<seq<byte>>)
    requires Covers(es, strings) && Moved(es, table, |es|)
    ensures Covers(table, strings)
  {
    forall p | 0 <= p < |strings|
      ensures Present(table, p)
    {
      assert Present(es, p);
    }
  }

  lemma InsertCovers(es: seq<Entry>, strings: seq<seq<byte>>, idx: nat, e: Entry, bytes: seq<byte>)
    requires Covers(es, strings) && idx < |es| && es[idx].Free? && e.Taken? && e.str == |strings|
    ensures Covers(es[idx := e], strings + [bytes])
  {
    var es' := es[idx := e];
    forall p: nat | p < |strings + [bytes]|
      ensures Present(es', p)
    {
      if p < |strings| {
        assert Present(es, p);
        var s :| HoldsString(es, s, p);
        assert HoldsString(es', s, p);
      } else {
        assert HoldsString(es', idx, p);
      }
    }
  }

  lemma NotIntercepted(es: seq<Entry>, strings: seq<seq<byte>>, idx: nat, e: Entry, start: Start, h: nat, bytes: seq<byte>)
    requires idx < |es| && start.Readable(strings) && bytes == start.Bytes(strings)
    requires Ends(es, start, h, bytes, strings, idx) && es[idx].Free? && e == Taken(|strings|, h, |bytes|)
    ensures !Intercepted(es[idx := e], start, h, bytes, strings + [bytes])
  {
    var es' := es[idx := e];
    if Intercepted(es', start, h, bytes, strings + [bytes]) {
      assert false;
    }
  }

  lemma NotInterceptedBefore(es: seq<Entry>, strings: seq<seq<byte>>, idx: nat, start: Start, h: nat, bytes: seq<byte>)
    requires |es| > 0 && Ends(es, start, h, bytes, strings, idx) && es[idx].Free?
    ensures !Intercepted(es, start, h, bytes, strings)
  {
    forall s | HoldsString(es, s, if start.Interned? then start.p else 0) && start.Interned?
      ensures !Passes(es, start, h, bytes, strings, s)
    {
      assert s != idx;
      assert Gap(Home(h, |es|), s, |es|) != Gap(Home(h, |es|), idx, |es|);
    }
  }

  // ----- masks and steps -----

  lemma MaskHome(h: nat, cap: nat)
    requires IsPow2(cap)
    ensures And(h, cap - 1) == Home(h, cap)
  {
    var k: nat :| cap == Pow2(k);
    MaskIsMod(h, k);
  }

  lemma MaskNext(p: nat, cap: nat)
    requires IsPow2(cap) && p < cap
    ensures And(p + 1, cap - 1) == Next(p, cap)
  {
    MaskHome(p + 1, cap);
  }

  lemma DoublePow2(cap: nat)
    requires IsPow2(cap)
    ensures IsPow2(2 * cap)
  {
    var k: nat :| cap == Pow2(k);
    assert 2 * cap == Pow2(k + 1);
  }

  /** A walk that has not met the free slot z yet has not gone all the way round. */
  lemma WalkOn(home: nat, p: nat, z: nat, cap: nat)
    requires home < cap && p < cap && z < cap && p != z && Gap(home, p, cap) <= Gap(home, z, cap)
    ensures Gap(home, Next(p, cap), cap) == Gap(home, p, cap) + 1 <= Gap(home, z, cap)
    ensures forall q :: 0 <= q < cap && Gap(home, q, cap) < Gap(home, p, cap) + 1 ==> q == p || Gap(home, q, cap) < Gap(home, p, cap)
  {
  }

  lemma DefaultCap()
    ensures IsPow2(INTERN_DEFAULT_CAP)
  {
    assert Pow2(4) == 16;
    assert Pow2(8) == 16 * Pow2(4);
  }

  // ----- histories -----

  /** A string from elsewhere, or the whole string that an earlier call of the history returned. */
  datatype Call = Text(bytes: seq<byte>) | Again(earlier: nat)

  ghost predicate History(calls: seq<Call>) {
    forall i :: 0 <= i < |calls| && calls[i].Again? ==> calls[i].earlier < i
  }

  /** The bytes that call i asks for. */
  function Asked(calls: seq<Call>, i: nat): seq<byte>
    requires i < |calls| && History(calls)
  {
    match calls[i]
    case Text(bytes) => bytes
    case Again(earlier) => Asked(calls, earlier)
  }

  /** Whatever strings are interned, in whatever order and however often the table grows: two
      calls return the same pointer exactly when their bytes are equal, and at the end every
      pointer still points to the bytes it was returned for. */
  method Run(table: InternTable, calls: seq<Call>) returns (ps: seq<nat>)
    requires table.Valid() && History(calls)
    modifies table, table.entries
    ensures table.Valid() && |ps| == |calls|
    ensures old(table.strings) <= table.strings
    ensures forall i :: 0 <= i < |ps| ==> ps[i] < |table.strings| && table.strings[ps[i]] == Asked(calls, i)
    ensures forall i, j :: 0 <= i < |ps| && 0 <= j < |ps| ==> (ps[i] == ps[j] <==> Asked(calls, i) == Asked(calls, j))
  {
    ps := [];
    for n := 0 to |calls|
      invariant table.Valid() && (table.entries == old(table.entries) || fresh(table.entries)) && |ps| == n
      invariant old(table.strings) <= table.strings
      invariant forall i :: 0 <= i < n ==> ps[i] < |table.strings| && table.strings[ps[i]] == Asked(calls, i)
    {
      var p := Serve(table, calls, ps);
      ps := ps + [p];
    }
    Distinguish(table.strings, calls, ps);
  }

  method Serve(table: InternTable, calls: seq<Call>, ps: seq<nat>) returns (p: nat)
    requires table.Valid() && History(calls) && |ps| < |calls|
    requires forall i :: 0 <= i < |ps| ==> ps[i] < |table.strings| && table.strings[ps[i]] == Asked(calls, i)
    modifies table, table.entries
    ensures table.Valid() && (table.entries == old(table.entries) || fresh(table.entries))
    ensures old(table.strings) <= table.strings
    ensures p < |table.strings| && table.strings[p] == Asked(calls, |ps|)
  {
    hide InternTable.Valid, Intercepted;
    match calls[|ps|]
    case Text(bytes) =>
      p := table.InternStr(Outside(bytes));
    case Again(earlier) =>
      var whole := table.strings[ps[earlier]];
      assert (whole + [0])[..|whole|] == whole;
      p := table.InternStr(Interned(ps[earlier], |whole|));
  }

  lemma Distinguish(strings: seq<seq<byte>>, calls: seq<Call>, ps: seq<nat>)
    requires AllDifferent(strings) && History(calls) && |ps| == |calls|
    requires forall i :: 0 <= i < |ps| ==> ps[i] < |strings| && strings[ps[i]] == Asked(calls, i)
    ensures forall i, j :: 0 <= i < |ps| && 0 <= j < |ps| ==> (ps[i] == ps[j] <==> Asked(calls, i) == Asked(calls, j))
  {
  }

  // ----- the hash function of the source, and the string it intercepts -----

  /** hash_bytes. */
  function HashBytes(s: seq<byte>): nat {
    if s == [] then 1469598103934665603
    else
      var h := HashBytes(s[..|s| - 1]);
      (Xor(h, s[|s| - 1] as nat) * 1099511628211) % 0x1_0000_0000_0000_0000
  }

  lemma HashOfR()
    ensures HashBytes([]) == 1469598103934665603 && HashBytes([114]) == 4953284302932390531
  {
    XorOfR();
    hide Xor;
    assert [114][..0] == [];
  }

  lemma XorOfR()
    ensures Xor(1469598103934665603, 114) == 1469598103934665713
  {
    XorZero(11481235186989575);
    assert Xor(22962470373979150, 1) == 22962470373979151;
    assert Xor(45924940747958300, 3) == 45924940747958303;
    assert Xor(91849881495916600, 7) == 91849881495916607;
    assert Xor(183699762991833200, 14) == 183699762991833214;
    assert Xor(367399525983666400, 28) == 367399525983666428;
    assert Xor(734799051967332801, 57) == 734799051967332856;
    assert Xor(1469598103934665603, 114) == 1469598103934665713;
  }

  /** A lone entry stands in its home slot. */
  lemma LoneEntry(es: seq<Entry>, strings: seq<seq<byte>>, hash: seq<byte> -> nat)
    requires Sound(es, strings, hash) && Covers(es, strings) && |strings| == 1
    ensures HoldsString(es, Home(hash(strings[0]), |es|), 0)
  {
    assert Present(es, 0);
    var s :| HoldsString(es, s, 0);
    var home := Home(es[s].hash, |es|);
    assert Describes(es[s], strings, hash) && Reaches(es, home, s);
    assert home != s ==> Gap(home, home, |es|) < Gap(home, s, |es|);
  }

  /** The string in the home slot of a prefix of it intercepts the walk for that prefix. */
  lemma HomeIntercepts(es: seq<Entry>, p: nat, h: nat, bytes: seq<byte>, strings: seq<seq<byte>>)
    requires |es| > 0 && p < |strings| && |bytes| != |strings[p]| && HoldsString(es, Home(h, |es|), p)
    ensures Intercepted(es, Interned(p, |bytes|), h, bytes, strings)
  {
    assert Passes(es, Interned(p, |bytes|), h, bytes, strings, Home(h, |es|));
  }

  /** In a new table, the empty prefix of the string "r" is found to be "r": under the hash function
      of the source both start at slot 131. */
  method EmptyPrefixOfR() returns (table: InternTable, p: nat, q: nat)
    ensures table.Valid() && table.strings == [[114]]
    ensures p == q == 0 && Interned(p, 0).Bytes(table.strings) == [] != table.strings[q]
  {
    hide HashBytes, Sound, Covers, Intercepted, Xor;
    table := new InternTable(HashBytes);
    p := table.InternStr(Outside([114]));
    LoneEntry(table.entries[..], table.strings, HashBytes);
    HashOfR();
    ghost var es := table.entries[..];
    assert Home(HashBytes([114]), 256) == 131 == Home(HashBytes([]), 256);
    assert HoldsString(es, 131, 0);
    q := table.InternStr(Interned(p, 0));
    assert table.entries[..][131] == es[131];
    HomeIntercepts(table.entries[..], 0, HashBytes([]), [], table.strings);
  }
}
