// The Robin Hood hash table of include/my_hashtable.h: a dense item array behind an
// `index`/`dist` probe table.
module HashTable {
  import opened Circular
  import opened Wrappers

  /** One stored item: its mandatory key, and everything after it. */
  datatype Item<K, V> = Item(key: K, value: V)

  /** Marks a free slot of `index`; in the source it is the largest size_t, which no
      item index ever reaches. */
  const HM_EMPTY: int := -1

  const DEFAULT_CAPACITY: nat := 10

  // ----- the finite map a dense item sequence stands for -----

  ghost predicate DistinctKeys<K, V>(items: seq<Item<K, V>>) {
    forall i, j :: 0 <= i < j < |items| ==> items[i].key != items[j].key
  }

  ghost function ToMap<K, V>(items: seq<Item<K, V>>): map<K, V> {
    if items == [] then map[]
    else
      var last := items[|items| - 1];
      ToMap(items[..|items| - 1])[last.key := last.value]
  }

  lemma ToMapKeys<K, V>(items: seq<Item<K, V>>, k: K)
    ensures k in ToMap(items) <==> exists i :: 0 <= i < |items| && items[i].key == k
  {
    if items != [] {
      var front := items[..|items| - 1];
      ToMapKeys(front, k);
      if k in ToMap(items) {
        if k in ToMap(front) {
          var i :| 0 <= i < |front| && front[i].key == k;
          assert items[i].key == k;
        } else {
          assert items[|items| - 1].key == k;
        }
      } else {
        forall i | 0 <= i < |items|
          ensures items[i].key != k
        {
          if i < |front| { assert front[i].key != k; }
        }
      }
    }
  }

  lemma ToMapAt<K, V>(items: seq<Item<K, V>>, i: nat)
    requires DistinctKeys(items) && i < |items|
    ensures items[i].key in ToMap(items) && ToMap(items)[items[i].key] == items[i].value
  {
    if i < |items| - 1 {
      ToMapAt(items[..|items| - 1], i);
    }
  }

  /** With distinct keys the map has as many keys as there are items. */
  lemma ToMapSize<K, V>(items: seq<Item<K, V>>)
    requires DistinctKeys(items)
    ensures |ToMap(items)| == |items|
  {
    if items != [] {
      var front := items[..|items| - 1];
      ToMapSize(front);
      ToMapKeys(front, items[|items| - 1].key);
      forall i | 0 <= i < |front|
        ensures front[i].key != items[|items| - 1].key
      {
        assert front[i] == items[i];
      }
    }
  }

  // ----- the probe table as a value -----

  /** A snapshot: `keys[i]` is the key of dense item i, `slot[i]` the slot naming item i. */
  datatype Probe<!K> = Probe(hash: K -> nat, index: seq<int>, dist: seq<int>, keys: seq<K>, slot: seq<nat>) {
    function Cap(): nat { |index| }

    function Home(k: K): nat
      requires Cap() > 0
    {
      hash(k) % Cap()
    }

    ghost predicate Sized() {
      |index| == |dist| > 0 && |slot| == |keys|
    }

    predicate Occupied(p: nat)
      requires p < |index|
    {
      index[p] != HM_EMPTY
    }

    /** Slot p supports an item at distance d in the slot after it. */
    ghost predicate Supports(p: nat, d: int)
      requires Sized() && p < Cap()
    {
      d > 0 ==> Occupied(p) && dist[p] >= d - 1
    }

    /** An occupied slot at distance d > 0 has an occupied predecessor at distance d - 1 or more. */
    ghost predicate Shape()
      requires Sized()
    {
      && (forall p: nat :: p < Cap() ==> 0 <= dist[p] < Cap())
      && (forall p: nat {:trigger Next(p, Cap())} :: p < Cap() && Occupied(Next(p, Cap())) ==>
           Supports(p, dist[Next(p, Cap())]))
    }

    /** Every occupied slot names an item, and stores its circular distance from the item's
        home. `carry` is an item that no slot names, and `hole` a slot whose name is stale
        (an index no slot or item has when there is none). */
    ghost predicate Linked(carry: int, hole: int)
      requires Sized()
    {
      && (forall p: nat :: p < Cap() && p != hole && Occupied(p) ==>
           0 <= index[p] < |keys| && index[p] != carry && slot[index[p]] == p &&
           dist[p] == Gap(Home(keys[index[p]]), p, Cap()))
      && (forall i: nat :: i < |keys| && i != carry ==>
           slot[i] < Cap() && slot[i] != hole && index[slot[i]] == i)
    }

    ghost predicate Distinct() {
      forall i, j :: 0 <= i < j < |keys| ==> keys[i] != keys[j]
    }

    ghost predicate Partial(carry: int, hole: int) {
      Sized() && Shape() && Linked(carry, hole) && Distinct()
    }

    /** The Robin Hood invariant. */
    ghost predicate Inv() {
      Partial(-1, -1)
    }

    ghost predicate IsFree(e: nat) {
      e < |index| && !Occupied(e)
    }

    // ----- consequences -----

    /** The slots from j steps before an occupied one up to it are all occupied. */
    lemma Run(p: nat, j: nat)
      requires Sized() && Shape() && p < Cap() && Occupied(p) && j <= dist[p]
      ensures Occupied(Back(p, j, Cap())) && dist[Back(p, j, Cap())] >= dist[p] - j
    {
      if j > 0 {
        Run(p, j - 1);
        assert Next(Back(p, j, Cap()), Cap()) == Back(p, j - 1, Cap());
      }
    }

    /** A free slot lies beyond an occupied slot's run. */
    lemma FreeAhead(p: nat, e: nat)
      requires Sized() && Shape() && p < Cap() && Occupied(p) && IsFree(e)
      ensures dist[p] + Gap(p, e, Cap()) < Cap()
    {
      if dist[p] + Gap(p, e, Cap()) >= Cap() {
        Run(p, Cap() - Gap(p, e, Cap()));
      }
    }

    /** No slot passed on the way from k's home names k. */
    ghost predicate Passed(k: K, d: nat)
      requires Sized() && Linked(-1, -1)
    {
      forall p: nat :: p < Cap() && Occupied(p) && Gap(Home(k), p, Cap()) < d ==> keys[index[p]] != k
    }

    /** A slot that names another key is passed, one step nearer to the free slot. */
    lemma PassedOn(k: K, d: nat, pos: nat, e: nat)
      requires Sized() && Linked(-1, -1) && pos < Cap() && Occupied(pos) && IsFree(e)
      requires d == Gap(Home(k), pos, Cap()) && d + Gap(pos, e, Cap()) < Cap()
      requires Passed(k, d) && keys[index[pos]] != k
      ensures Passed(k, d + 1) && d + 1 == Gap(Home(k), Next(pos, Cap()), Cap())
      ensures Gap(Next(pos, Cap()), e, Cap()) == Gap(pos, e, Cap()) - 1
    {
      assert forall p: nat :: p < Cap() && Gap(Home(k), p, Cap()) < d + 1 ==> Gap(Home(k), p, Cap()) < d || p == pos;
    }

    /** The early exit of every probe loop misses nothing: a free slot, or one whose item sits
        closer to its home than the probe has come, proves the key absent. */
    lemma EarlyExit(k: K, d: nat, pos: nat)
      requires Inv() && d < Cap() && pos < Cap() && d == Gap(Home(k), pos, Cap())
      requires Passed(k, d)
      requires !Occupied(pos) || dist[pos] < d
      ensures k !in keys
    {
      if k in keys {
        var i: nat :| i < |keys| && keys[i] == k;
        var p := slot[i];
        assert Occupied(p) && dist[p] == Gap(Home(k), p, Cap());
        if dist[p] >= d {
          BackToPath(Home(k), p, pos, Cap());
          Run(p, dist[p] - d);
        }
        assert false;
      }
    }

    /** Only the slot of the last item names it. */
    lemma LastNamed()
      requires Inv() && keys != []
      ensures var last := |keys| - 1;
        && slot[last] < Cap() && index[slot[last]] == last
        && forall p :: 0 <= p < Cap() && index[p] == last ==> p == slot[last]
    {
      var last := |keys| - 1;
      assert forall p: nat :: p < Cap() && index[p] == last ==> Occupied(p);
    }

    /** Some slot is free as long as there are fewer items than slots. */
    lemma FreeExists() returns (e: nat)
      requires Inv() && |keys| < Cap()
      ensures IsFree(e)
    {
      if forall p: nat :: p < Cap() ==> Occupied(p) {
        forall p, q | 0 <= p < q < |index|
          ensures index[p] != index[q]
        {
          assert Occupied(p) && Occupied(q);
        }
        assert forall p :: 0 <= p < |index| ==> Occupied(p);
        Pigeonhole(index, |keys|);
      }
      e :| e < Cap() && !Occupied(e);
    }

    /** The same while one slot is stale: its name is not counted, so one more slot is needed. */
    lemma FreeBeside(hole: nat) returns (e: nat)
      requires Sized() && hole < Cap() && Partial(-1, hole) && |keys| + 1 < Cap()
      ensures IsFree(e) && e != hole
    {
      var others := index[..hole] + index[hole + 1..];
      if forall p: nat :: p < Cap() && p != hole ==> Occupied(p) {
        forall p | 0 <= p < |others|
          ensures 0 <= others[p] < |keys|
          ensures slot[others[p]] == if p < hole then p else p + 1
        {
          assert Occupied(if p < hole then p else p + 1);
        }
        Pigeonhole(others, |keys|);
      }
      e :| e < Cap() && e != hole && !Occupied(e);
    }

    // ----- the steps of insertion -----

    /** An item with key k may stand at `pos` with distance d: d is right, and the slot before
        satisfies what Shape asks of it. */
    ghost predicate MayStand(k: K, pos: nat, d: int)
      requires Sized()
    {
      && pos < Cap() && d == Gap(Home(k), pos, Cap())
      && Supports(Back(pos, 1, Cap()), d)
    }

    function Append(k: K): Probe<K> {
      this.(keys := keys + [k], slot := slot + [0])
    }

    lemma Appended(k: K)
      requires Inv() && k !in keys
      ensures Append(k).Partial(|keys|, -1)
    {
    }

    function Set(carry: int, pos: nat, d: int): Probe<K>
      requires pos < |index| == |dist| && 0 <= carry < |slot|
    {
      this.(index := index[pos := carry], dist := dist[pos := d], slot := slot[carry := pos])
    }

    /** Placing the carried item in a free slot, or over an item closer to its home, leaves the
        slot's old content (nothing, or that item) as the one carried. */
    lemma Placed(carry: int, pos: nat, d: int)
      requires Sized() && 0 <= carry < |keys|
      requires Partial(carry, -1) && MayStand(keys[carry], pos, d)
      requires !Occupied(pos) || dist[pos] < d
      ensures Set(carry, pos, d).Partial(index[pos], -1)
      ensures Set(carry, pos, d).Occupied(pos)
    {
      var r := Set(carry, pos, d);
      forall p: nat | p < Cap() && r.Occupied(Next(p, Cap()))
        ensures r.Supports(p, r.dist[Next(p, Cap())])
      {
        if Next(p, Cap()) == pos {
          assert p == Back(pos, 1, Cap());
        } else {
          assert Supports(p, dist[Next(p, Cap())]);
        }
      }
    }

    /** An item that may not stand at `pos` may stand one slot further. */
    lemma StepAhead(k: K, pos: nat, d: int, e: nat)
      requires Sized() && Shape() && MayStand(k, pos, d) && IsFree(e)
      requires d + Gap(pos, e, Cap()) < Cap()
      requires Occupied(pos) && dist[pos] >= d
      ensures MayStand(k, Next(pos, Cap()), d + 1)
      ensures Gap(Next(pos, Cap()), e, Cap()) == Gap(pos, e, Cap()) - 1
    {
    }

    // ----- the steps of deletion -----

    /** Item i is dropped: the last item moves into its place, and the slot that named the last
        item now names i. The slot that named i is left stale. */
    function Drop(i: nat): Probe<K>
      requires Sized() && i < |keys| && slot[|keys| - 1] < Cap()
    {
      var last := |keys| - 1;
      if i == last then this.(keys := keys[..last], slot := slot[..last])
      else this.(index := index[slot[last] := i],
                 keys := keys[i := keys[last]][..last],
                 slot := slot[i := slot[last]][..last])
    }

    lemma Dropped(i: nat)
      requires Inv() && i < |keys|
      ensures Drop(i).Partial(-1, slot[i]) && Drop(i).Occupied(slot[i])
    {
      var r := Drop(i);
      var last := |keys| - 1;
      assert index[slot[last]] == last && index[slot[i]] == i;
      forall p: nat | p < Cap()
        ensures r.Occupied(p) == Occupied(p)
      {
      }
      forall p: nat | p < Cap() && r.Occupied(Next(p, Cap()))
        ensures r.Supports(p, r.dist[Next(p, Cap())])
      {
        assert Supports(p, dist[Next(p, Cap())]);
      }
    }

    /** Moving the next slot's content back into the hole. */
    function Shift(hole: nat): Probe<K>
      requires Sized() && hole < Cap() && 0 <= index[Next(hole, Cap())] < |slot|
    {
      var next := Next(hole, Cap());
      this.(index := index[hole := index[next]], dist := dist[hole := dist[next] - 1],
            slot := slot[index[next] := hole])
    }

    lemma Shifted(hole: nat, e: nat)
      requires Sized() && hole < Cap() && Partial(-1, hole) && Occupied(hole) && IsFree(e)
      requires Occupied(Next(hole, Cap())) && dist[Next(hole, Cap())] > 0
      ensures 0 <= index[Next(hole, Cap())] < |slot|
      ensures Shift(hole).Partial(-1, Next(hole, Cap()))
      ensures Shift(hole).Occupied(Next(hole, Cap())) && Shift(hole).IsFree(e)
      ensures Gap(Next(hole, Cap()), e, Cap()) == Gap(hole, e, Cap()) - 1
    {
      var next := Next(hole, Cap());
      assert next != hole;
      var r := Shift(hole);
      assert Supports(hole, dist[next]);
      forall p: nat | p < Cap() && r.Occupied(Next(p, Cap()))
        ensures r.Supports(p, r.dist[Next(p, Cap())])
      {
        var q := Next(p, Cap());
        if p != hole || q != next {
          assert Occupied(q);
          assert Supports(p, dist[q]);
        }
      }
    }

    /** Emptying the hole. */
    function Clear(hole: nat): Probe<K>
      requires hole < |index| == |dist|
    {
      this.(index := index[hole := HM_EMPTY], dist := dist[hole := 0])
    }

    lemma Cleared(hole: nat)
      requires Sized() && hole < Cap() && Partial(-1, hole)
      requires !Occupied(Next(hole, Cap())) || dist[Next(hole, Cap())] == 0
      ensures Clear(hole).Inv()
    {
      var r := Clear(hole);
      forall p: nat | p < Cap() && r.Occupied(Next(p, Cap()))
        ensures r.Supports(p, r.dist[Next(p, Cap())])
      {
        assert Supports(p, dist[Next(p, Cap())]);
      }
    }
  }

  // ----- the state of the insertion loop -----

  /** The insertion loop at slot `pos` with distance `d`. It looks for a place for the item whose
      key is `standing`: the new item itself while `carry` is -1, afterwards the displaced item
      `carry`. `free` is a free slot ahead, `placed` the slot the new item took. */
  datatype Seek<!K> = Seek(table: Probe<K>, key: K, standing: K, pos: nat, d: nat, carry: int,
                           free: nat, placed: nat) {

    ghost predicate Ok(start: Probe<K>)
      requires start.Inv()
    {
      && table.Sized() && table.Partial(carry, -1) && table.MayStand(standing, pos, d)
      && table.IsFree(free) && d + Gap(pos, free, table.Cap()) < table.Cap()
      && (carry == -1 ==> table == start && standing == key && start.Passed(key, d))
      && (carry != -1 ==>
           && table.keys == start.keys + [key] && key !in start.keys
           && 0 <= carry < |start.keys| && standing == table.keys[carry]
           && table.slot[|start.keys|] == placed < table.Cap()
           && Gap(placed, free, table.Cap()) > Gap(pos, free, table.Cap()))
    }

    function Ahead(): Seek<K>
      requires pos < table.Cap()
    {
      this.(pos := Next(pos, table.Cap()), d := d + 1)
    }

    /** The slot holds a different key, and its item sits at least as far from home. */
    lemma Skipped(start: Probe<K>)
      requires start.Inv() && Ok(start) && table.Occupied(pos) && table.dist[pos] >= d
      requires carry == -1 ==> start.keys[start.index[pos]] != key
      ensures Ahead().Ok(start)
      ensures Gap(Ahead().pos, free, table.Cap()) == Gap(pos, free, table.Cap()) - 1
    {
      table.StepAhead(standing, pos, d, free);
      if carry == -1 {
        forall p: nat | p < start.Cap() && start.Occupied(p) && Gap(start.Home(key), p, start.Cap()) < d + 1
          ensures start.keys[start.index[p]] != key
        {
          assert p == pos || Gap(start.Home(key), p, start.Cap()) < d;
        }
      }
    }

    /** Once an item has been displaced, no slot still to be visited names the new key. */
    lemma NeverTheKey(start: Probe<K>)
      requires start.Inv() && Ok(start) && carry != -1 && table.Occupied(pos)
      ensures 0 <= table.index[pos] < |start.keys| && table.keys[table.index[pos]] != key
    {
      assert table.slot[table.index[pos]] == pos;
      assert table.keys[table.index[pos]] in start.keys;
    }

    /** Storing the new item behind the others, when that has not happened yet. */
    function Stored(): Seek<K> {
      if carry == -1 then this.(table := table.Append(key), carry := |table.keys|, placed := pos) else this
    }

    /** What the loop leaves in slot `pos` and in its own variables. */
    function Written(): Seek<K>
      requires pos < |table.index| == |table.dist| && 0 <= carry < |table.slot| == |table.keys|
      requires carry < |table.keys|
    {
      var table' := table.Set(carry, pos, d);
      var carry' := table.index[pos];
      this.(table := table', carry := carry', d := if table.dist[pos] < 0 then 0 else table.dist[pos],
            standing := if 0 <= carry' < |table.keys| then table.keys[carry'] else standing)
    }

    lemma StoredPartial(start: Probe<K>)
      requires start.Inv() && Ok(start)
      requires !table.Occupied(pos) || table.dist[pos] < d
      ensures carry == -1 ==> key !in start.keys
      ensures Stored().table.Partial(Stored().carry, -1)
      ensures 0 <= Stored().carry < |Stored().table.keys|
      ensures Stored().table.MayStand(standing, pos, d) && standing == Stored().table.keys[Stored().carry]
      ensures Stored().table.keys == start.keys + [key]
    {
      if carry == -1 {
        start.EarlyExit(key, d, pos);
        start.Appended(key);
      }
    }

    /** The loop ends in a free slot: the table is whole again. */
    lemma Finished(start: Probe<K>)
      requires start.Inv() && Ok(start) && !table.Occupied(pos)
      ensures key !in start.keys
      ensures Stored().Written().table.Inv() && Stored().Written().table.keys == start.keys + [key]
    {
      StoredPartial(start);
      Stored().table.Placed(Stored().carry, pos, d);
    }

    /** The standing item and the item in its way, which is closer to home, change places. */
    lemma Swapped()
      requires table.Sized() && 0 <= carry < |table.keys| && table.Partial(carry, -1)
      requires table.MayStand(standing, pos, d) && standing == table.keys[carry]
      requires table.Occupied(pos) && table.dist[pos] < d
      requires table.IsFree(free) && d + Gap(pos, free, table.Cap()) < table.Cap()
      ensures var next := Written().Ahead();
        && next.table.Sized() && next.carry == table.index[pos] && next.table.Partial(next.carry, -1)
        && next.table.MayStand(next.standing, next.pos, next.d) && next.standing == table.keys[next.carry]
        && next.table.IsFree(free) && next.d + Gap(next.pos, free, table.Cap()) < table.Cap()
        && Gap(next.pos, free, table.Cap()) == Gap(pos, free, table.Cap()) - 1
    {
      table.FreeAhead(pos, free);
      table.Placed(carry, pos, d);
    }

    lemma StoredStays()
      requires table.Sized() && pos < table.Cap() && table.Occupied(pos) && table.IsFree(free)
      ensures var s := Stored();
        && s.pos == pos && s.d == d && s.free == free && s.standing == standing && s.key == key
        && s.table.Sized() && s.table.Cap() == table.Cap() && s.table.IsFree(free)
        && s.table.Occupied(pos) && s.table.dist[pos] == table.dist[pos]
    {
    }

    lemma AfterDisplacing(start: Probe<K>) returns (next: Seek<K>)
      requires start.Inv() && Ok(start) && table.Occupied(pos) && table.dist[pos] < d
      ensures Stored().carry < |Stored().table.keys|
      ensures next == Stored().Written().Ahead() && 0 <= table.dist[pos]
      ensures next.table == Stored().Written().table && next.table.hash == table.hash
      ensures next.key == key && next.free == free < table.Cap() && next.carry == table.index[pos]
      ensures next.pos == Next(pos, table.Cap()) && next.d == table.dist[pos] + 1
    {
      next := Stored().Written().Ahead();
    }

    /** The new item stays where it was placed, and is not the one carried on. */
    lemma NewPlaced(start: Probe<K>)
      requires start.Inv() && Ok(start) && table.Occupied(pos)
      requires 0 <= Stored().carry < |Stored().table.keys| && Stored().table.keys == start.keys + [key]
      ensures var next := Stored().Written();
        && next.carry == table.index[pos] && 0 <= next.carry < |start.keys|
        && next.table.keys == start.keys + [key] && |next.table.slot| == |start.keys| + 1
        && next.table.slot[|start.keys|] == next.placed < table.Cap()
        && (next.placed == pos || Gap(next.placed, free, table.Cap()) > Gap(pos, free, table.Cap()))
    {
    }

    /** The loop takes the slot of an item closer to its home, and carries on with that item. */
    lemma Displaced(start: Probe<K>)
      requires start.Inv() && Ok(start) && table.Occupied(pos) && table.dist[pos] < d
      ensures Stored().Written().Ahead().Ok(start)
      ensures Gap(Stored().Written().Ahead().pos, free, table.Cap()) == Gap(pos, free, table.Cap()) - 1
    {
      assert pos < table.Cap();
      hide Probe.Partial, Probe.MayStand, Probe.IsFree, Stored, Written, Gap, Next;
      StoredPartial(start);
      StoredStays();
      Stored().Swapped();
      NewPlaced(start);
    }
  }

  // ----- how the map follows changes of the item sequence -----

  /** The map of an item sequence is pinned down by its items. */
  lemma ToMapIs<K, V>(items: seq<Item<K, V>>, m: map<K, V>)
    requires DistinctKeys(items)
    requires forall i :: 0 <= i < |items| ==> items[i].key in m && m[items[i].key] == items[i].value
    requires forall k :: k in m ==> exists i :: 0 <= i < |items| && items[i].key == k
    ensures ToMap(items) == m
  {
    var t := ToMap(items);
    forall k | k in m
      ensures k in t && t[k] == m[k]
    {
      var i :| 0 <= i < |items| && items[i].key == k;
      ToMapAt(items, i);
    }
    forall k | k in t
      ensures k in m
    {
      ToMapKeys(items, k);
    }
    assert t.Keys <= m.Keys && m.Keys <= t.Keys;
  }

  lemma ToMapReplace<K, V>(items: seq<Item<K, V>>, i: nat, item: Item<K, V>)
    requires DistinctKeys(items) && i < |items| && items[i].key == item.key
    ensures ToMap(items[i := item]) == ToMap(items)[item.key := item.value]
  {
    var r := items[i := item];
    var m := ToMap(items)[item.key := item.value];
    forall j | 0 <= j < |r|
      ensures r[j].key in m && m[r[j].key] == r[j].value
    {
      ToMapAt(items, j);
    }
    forall k | k in m
      ensures exists j :: 0 <= j < |r| && r[j].key == k
    {
      if k == item.key {
        assert r[i].key == k;
      } else {
        ToMapKeys(items, k);
        var j :| 0 <= j < |items| && items[j].key == k;
        assert r[j].key == k;
      }
    }
    ToMapIs(r, m);
  }

  /** Overwriting item i with the last one and dropping the last removes i's key and nothing else. */
  lemma ToMapDrop<K, V>(items: seq<Item<K, V>>, i: nat)
    requires DistinctKeys(items) && i < |items|
    ensures DistinctKeys(items[i := items[|items| - 1]][..|items| - 1])
    ensures ToMap(items[i := items[|items| - 1]][..|items| - 1]) == ToMap(items) - {items[i].key}
  {
    var last := |items| - 1;
    var r := items[i := items[last]][..last];
    var m := ToMap(items) - {items[i].key};
    forall j | 0 <= j < |r|
      ensures r[j].key in m && m[r[j].key] == r[j].value
    {
      ToMapAt(items, if j == i then last else j);
    }
    forall k | k in m
      ensures exists j :: 0 <= j < |r| && r[j].key == k
    {
      ToMapKeys(items, k);
      var j :| 0 <= j < |items| && items[j].key == k;
      assert r[if j == last then i else j].key == k;
    }
    ToMapIs(r, m);
  }

  lemma SubsetSize<T>(a: set<T>, b: set<T>)
    requires a <= b
    ensures |a| <= |b|
    ensures |a| == |b| ==> a == b
  {
    if a != {} {
      var x :| x in a;
      SubsetSize(a - {x}, b - {x});
    }
  }

  function KeysOf<K, V>(items: seq<Item<K, V>>): seq<K> {
    seq(|items|, i requires 0 <= i < |items| => items[i].key)
  }

  lemma Grown<K, V>(items: seq<Item<K, V>>, item: Item<K, V>)
    requires item.key !in KeysOf(items)
    ensures KeysOf(items + [item]) == KeysOf(items) + [item.key]
    ensures ToMap(items + [item]) == ToMap(items)[item.key := item.value]
    ensures item.key !in ToMap(items)
  {
    assert (items + [item])[..|items|] == items;
    ToMapKeys(items, item.key);
    forall i | 0 <= i < |items|
      ensures items[i].key != item.key
    {
      assert KeysOf(items)[i] == items[i].key;
    }
  }

  lemma Overwritten<K, V>(items: seq<Item<K, V>>, i: nat, item: Item<K, V>)
    requires forall j, k :: 0 <= j < k < |items| ==> KeysOf(items)[j] != KeysOf(items)[k]
    requires i < |items| && items[i].key == item.key
    ensures KeysOf(items[i := item]) == KeysOf(items)
    ensures ToMap(items[i := item]) == ToMap(items)[item.key := item.value]
    ensures item.key in ToMap(items)
  {
    assert DistinctKeys(items) by {
      forall j, k | 0 <= j < k < |items|
        ensures items[j].key != items[k].key
      {
        assert KeysOf(items)[j] != KeysOf(items)[k];
      }
    }
    ToMapReplace(items, i, item);
    ToMapKeys(items, item.key);
  }

  // ----- growing: the old items move over in slot order -----

  /** m holds exactly the items that the slots before i name. */
  ghost predicate Moved<K, V>(old0: Probe<K>, items0: seq<Item<K, V>>, m: map<K, V>, i: nat)
    requires |old0.slot| == |items0|
  {
    && (forall k :: k in m ==> k in ToMap(items0) && m[k] == ToMap(items0)[k])
    && (forall j :: 0 <= j < |items0| ==> (items0[j].key in m <==> old0.slot[j] < i))
  }

  lemma KeysDistinct<K, V>(p: Probe<K>, items: seq<Item<K, V>>)
    requires p.Distinct() && p.keys == KeysOf(items)
    ensures DistinctKeys(items)
  {
    forall i, j | 0 <= i < j < |items|
      ensures items[i].key != items[j].key
    {
      assert p.keys[i] != p.keys[j];
    }
  }

  lemma MoveNone<K, V>(old0: Probe<K>, items0: seq<Item<K, V>>, m: map<K, V>, i: nat)
    requires old0.Inv() && old0.keys == KeysOf(items0)
    requires i < old0.Cap() && !old0.Occupied(i) && Moved(old0, items0, m, i)
    ensures Moved(old0, items0, m, i + 1)
  {
    forall j | 0 <= j < |items0|
      ensures old0.slot[j] != i
    {
      assert old0.index[old0.slot[j]] == j;
    }
  }

  /** A part of the map that lacks a key of it has fewer keys than there are items. */
  lemma SmallerThanAll<K, V>(items: seq<Item<K, V>>, m: map<K, V>, k: K)
    requires DistinctKeys(items) && m.Keys <= ToMap(items).Keys && k in ToMap(items) && k !in m
    ensures |m| < |items|
  {
    var all := ToMap(items);
    ToMapSize(items);
    SubsetSize(m.Keys, all.Keys);
    assert m.Keys != all.Keys;
    assert |m| == |m.Keys| && |all| == |all.Keys|;
  }

  /** The item that the next occupied slot names has not been moved yet, so there are fewer
      items in the new table than in the old one. */
  lemma MoveOne<K, V>(old0: Probe<K>, items0: seq<Item<K, V>>, m: map<K, V>, i: nat)
    requires old0.Inv() && old0.keys == KeysOf(items0)
    requires i < old0.Cap() && old0.Occupied(i) && Moved(old0, items0, m, i)
    ensures 0 <= old0.index[i] < |items0| && |m| < |items0|
    ensures var item := items0[old0.index[i]];
      Moved(old0, items0, m[item.key := item.value], i + 1)
  {
    var idx := old0.index[i];
    var item := items0[idx];
    var m0 := ToMap(items0);
    KeysDistinct(old0, items0);
    ToMapAt(items0, idx);
    assert old0.slot[idx] == i && item.key !in m;
    SmallerThanAll(items0, m, item.key);
    forall j | 0 <= j < |items0|
      ensures items0[j].key in m[item.key := item.value] <==> old0.slot[j] < i + 1
    {
      assert old0.index[old0.slot[j]] == j;
    }
  }

  lemma MovedAll<K, V>(old0: Probe<K>, items0: seq<Item<K, V>>, m: map<K, V>)
    requires old0.Inv() && old0.keys == KeysOf(items0) && Moved(old0, items0, m, old0.Cap())
    ensures m == ToMap(items0)
  {
    KeysDistinct(old0, items0);
    forall j | 0 <= j < |items0|
      ensures items0[j].key in m && m[items0[j].key] == items0[j].value
    {
      assert old0.index[old0.slot[j]] == j;
      ToMapAt(items0, j);
    }
    forall k | k in m
      ensures exists j :: 0 <= j < |items0| && items0[j].key == k
    {
      ToMapKeys(items0, k);
    }
    ToMapIs(items0, m);
  }

  // ----- what a run of operations should leave -----

  datatype Op<K, V> = Put(item: Item<K, V>) | Del(key: K) {
    function Key(): K {
      if Put? then item.key else key
    }
  }

  ghost function Step<K, V>(m: map<K, V>, op: Op<K, V>): map<K, V> {
    match op
    case Put(item) => m[item.key := item.value]
    case Del(key) => m - {key}
  }

  ghost function After<K, V>(ops: seq<Op<K, V>>): map<K, V> {
    if ops == [] then map[] else Step(After(ops[..|ops| - 1]), ops[|ops| - 1])
  }

  /** The operation at i is the last one of the run that touches its key. */
  ghost predicate LastOn<K, V>(ops: seq<Op<K, V>>, i: nat, k: K) {
    i < |ops| && ops[i].Key() == k && forall j :: i < j < |ops| ==> ops[j].Key() != k
  }

  /** A key is present exactly when the last operation on it was a put, with that put's value. */
  lemma {:induction false} LastPutWins<K, V>(ops: seq<Op<K, V>>, k: K)
    ensures k in After(ops) <==> exists i: nat :: LastOn(ops, i, k) && ops[i].Put?
    ensures forall i: nat :: LastOn(ops, i, k) && ops[i].Put? ==>
              k in After(ops) && After(ops)[k] == ops[i].item.value
  {
    if ops != [] {
      var front, last := ops[..|ops| - 1], |ops| - 1;
      LastPutWins(front, k);
      if ops[last].Key() == k {
        assert LastOn(ops, last, k);
        assert forall i: nat :: LastOn(ops, i, k) ==> i == last;
      } else {
        forall i: nat
          ensures LastOn(ops, i, k) <==> LastOn(front, i, k)
        {
          if LastOn(front, i, k) {
            assert forall j :: i < j < |front| ==> front[j].Key() == ops[j].Key();
          }
          if LastOn(ops, i, k) {
            assert i < last && front[i] == ops[i];
          }
        }
      }
    }
  }

  // ----- the table itself -----

  /** `items == NULL` in the source is a table of capacity 0 here. */
  class Table<K(==, 0), V(0)> {
    const hash: K -> nat
    var index: array<int>
    var dist: array<int>
    var items: array<Item<K, V>>
    var len: nat
    ghost var slot: seq<nat>

    ghost function Repr(): set<object>
      reads this
    {
      {this, index, dist, items}
    }

    ghost function Snap(): Probe<K>
      reads this, index, dist, items
      requires len <= items.Length
    {
      Probe(hash, index[..], dist[..], KeysOf(items[..len]), slot)
    }

    ghost predicate Valid()
      reads this, index, dist, items
    {
      && index.Length == dist.Length == items.Length && index != dist
      && len <= index.Length * 7 / 10
      && |slot| == len
      && (index.Length > 0 ==> Snap().Inv())
    }

    /** The finite map the table stands for. */
    ghost function Model(): map<K, V>
      reads this, items
      requires len <= items.Length
    {
      ToMap(items[..len])
    }

    predicate Full()
      reads this
    {
      len >= index.Length * 7 / 10
    }

    lemma ValidKeys()
      requires Valid()
      ensures DistinctKeys(items[..len])
    {
      if index.Length > 0 {
        forall i, j | 0 <= i < j < len
          ensures items[..len][i].key != items[..len][j].key
        {
          assert Snap().keys[i] != Snap().keys[j];
        }
      }
    }

    constructor (hash: K -> nat)
      ensures Valid() && fresh(Repr()) && Model() == map[] && this.hash == hash
    {
      this.hash := hash;
      index, dist, items, len, slot := new int[0], new int[0], new Item<K, V>[0], 0, [];
    }

    /** _hm_init_impl: fresh arrays of the given capacity, all slots free. */
    method Init(cap: nat)
      requires cap > 0
      modifies this
      ensures Valid() && fresh(index) && fresh(dist) && fresh(items)
      ensures index.Length == cap && len == 0 && Model() == map[]
    {
      var newIndex, newDist := new int[cap], new int[cap];
      for i := 0 to cap
        invariant forall j :: 0 <= j < i ==> newIndex[j] == HM_EMPTY && newDist[j] == 0
      {
        newIndex[i] := HM_EMPTY;
        newDist[i] := 0;
      }
      index, dist, items := newIndex, newDist, new Item<K, V>[cap];
      len, slot := 0, [];
    }

    /** The probe loop that _hm_get_impl and _hm_del_impl share. */
    method Find(key: K) returns (found: bool, pos: nat)
      requires Valid() && index.Length > 0
      ensures found ==> pos < index.Length && 0 <= index[pos] < len && items[index[pos]].key == key
      ensures found ==> slot[index[pos]] == pos
      ensures !found ==> key !in Snap().keys
    {
      ghost var s := Snap();
      ghost var e := s.FreeExists();
      var cap := index.Length;
      pos := hash(key) % cap;
      var d := 0;
      while true
        invariant pos < cap && d == Gap(s.Home(key), pos, cap)
        invariant d + Gap(pos, e, cap) < cap
        invariant s.Passed(key, d)
        decreases Gap(pos, e, cap)
      {
        if index[pos] == HM_EMPTY || dist[pos] < d {
          s.EarlyExit(key, d, pos);
          return false, pos;
        }
        assert s.Occupied(pos);
        if items[index[pos]].key == key {
          return true, pos;
        }
        s.PassedOn(key, d, pos, e);
        pos := Next(pos, cap);
        d := d + 1;
      }
    }

    /** _hm_get_impl: the position of the item stored under key, if there is one. */
    method Get(key: K) returns (r: Option<nat>)
      requires Valid()
      ensures r.Some? <==> key in Model()
      ensures r.Some? ==> r.value < len && items[r.value] == Item(key, Model()[key])
    {
      ToMapKeys(items[..len], key);
      if index.Length == 0 {
        return None;
      }
      var found, pos := Find(key);
      if found {
        var i := index[pos];
        ValidKeys();
        ToMapAt(items[..len], i);
        return Some(i);
      }
      forall i | 0 <= i < len
        ensures items[..len][i].key != key
      {
        assert Snap().keys[i] != key;
      }
      return None;
    }

    /** Copies the item behind the others; no slot names it yet. */
    method Store(item: Item<K, V>)
      requires len < items.Length
      modifies items, this`len, this`slot
      ensures len == old(len) + 1 && items[..len] == old(items[..len]) + [item]
      ensures slot == old(slot) + [0]
    {
      items[len] := item;
      len := len + 1;
      slot := slot + [0];
    }

    method WriteSlot(pos: nat, idx: nat, d: nat)
      requires index.Length == dist.Length && index != dist && pos < index.Length && idx < |slot|
      modifies index, dist, this`slot
      ensures index[..] == old(index[..])[pos := idx] && dist[..] == old(dist[..])[pos := d]
      ensures slot == old(slot)[idx := pos]
    {
      index[pos] := idx;
      dist[pos] := d;
      slot := slot[idx := pos];
    }

    /** The table agrees with the state of an insertion that began at `start` with `items0`. */
    ghost predicate Matches(seek: Seek<K>, start: Probe<K>, items0: seq<Item<K, V>>, item: Item<K, V>)
      reads this, index, dist, items
    {
      && index.Length == dist.Length == items.Length && index != dist
      && start.Inv() && start.keys == KeysOf(items0) && |items0| < index.Length * 7 / 10
      && seek.Ok(start) && seek.key == item.key
      && seek.table == Probe(hash, index[..], dist[..], seek.table.keys, slot)
      && len == (if seek.carry == -1 then |items0| else |items0| + 1)
      && items[..len] == if seek.carry == -1 then items0 else items0 + [item]
    }

    /** The item standing for a place takes slot pos; the new item is stored first if it has
        not been yet. */
    method Take(item: Item<K, V>, pos: nat, newIdx: int, d: nat,
                ghost seek: Seek<K>, ghost start: Probe<K>, ghost items0: seq<Item<K, V>>)
      requires Matches(seek, start, items0, item) && seek.pos == pos && seek.carry == newIdx && seek.d == d
      requires index[pos] == HM_EMPTY || dist[pos] < d
      modifies index, dist, items, this`len, this`slot
      ensures len == |items0| + 1 && items[..len] == items0 + [item]
      ensures var w := seek.Stored().Written().table;
        index[..] == w.index && dist[..] == w.dist && slot == w.slot
    {
      var idx := newIdx;
      if idx == -1 {
        idx := len;
        Store(item);
      }
      WriteSlot(pos, idx, d);
    }

    /** The probe met a free slot: the item standing for a place settles in it. */
    method Settle(item: Item<K, V>, pos: nat, newIdx: int, d: nat,
                  ghost seek: Seek<K>, ghost start: Probe<K>, ghost items0: seq<Item<K, V>>)
      requires Matches(seek, start, items0, item) && seek.pos == pos && seek.carry == newIdx && seek.d == d
      requires index[pos] == HM_EMPTY
      modifies index, dist, items, this`len, this`slot
      ensures Valid() && Model() == ToMap(items0)[item.key := item.value]
      ensures len == |items0| + 1 && item.key !in ToMap(items0)
    {
      seek.Finished(start);
      Take(item, pos, newIdx, d, seek, start, items0);
      Grown(items0, item);
      assert Snap() == seek.Stored().Written().table;
    }

    /** The probe met an item closer to its home: the item standing for a place takes its slot,
        and the search goes on for the displaced item. */
    method Displace(item: Item<K, V>, pos: nat, newIdx: int, d: nat,
                    ghost seek: Seek<K>, ghost start: Probe<K>, ghost items0: seq<Item<K, V>>)
      returns (tmpIdx: int, tmpDist: nat, ghost next: Seek<K>)
      requires Matches(seek, start, items0, item) && seek.pos == pos && seek.carry == newIdx && seek.d == d
      requires pos < index.Length && index[pos] != HM_EMPTY && dist[pos] < d
      modifies index, dist, items, this`len, this`slot
      ensures Matches(next, start, items0, item) && tmpIdx == next.carry && tmpDist + 1 == next.d
      ensures next.pos == Next(pos, index.Length) < index.Length && next.free == seek.free < index.Length
      ensures Gap(next.pos, seek.free, index.Length) == Gap(pos, seek.free, index.Length) - 1
    {
      hide Seek.Stored, Seek.Written, Seek.Ahead, Seek.Ok, Probe.Inv, Probe.Partial, Gap;
      seek.Displaced(start);
      next := seek.AfterDisplacing(start);
      tmpIdx, tmpDist := index[pos], dist[pos];
      Take(item, pos, newIdx, d, seek, start, items0);
    }

    /** The probe met the key: the new item replaces the old one. */
    method Overwrite(item: Item<K, V>, i: nat,
                     ghost seek: Seek<K>, ghost start: Probe<K>, ghost items0: seq<Item<K, V>>)
      requires Matches(seek, start, items0, item) && seek.carry == -1
      requires i < len && items[i].key == item.key
      modifies items
      ensures Valid() && Model() == ToMap(items0)[item.key := item.value]
      ensures len == |items0| && item.key in ToMap(items0)
    {
      items[i] := item;
      Overwritten(items0, i, item);
      assert items[..len] == items0[i := item];
      assert Snap() == start;
    }

    /** The probe loop of _hm_put_impl, once there is room for one more item. */
    method Insert(item: Item<K, V>, ghost start: Probe<K>, ghost items0: seq<Item<K, V>>, ghost free: nat)
      requires index.Length > 0
      requires Matches(SeekFrom(item, start, free), start, items0, item)
      modifies index, dist, items, this`len, this`slot
      ensures Valid() && Model() == ToMap(items0)[item.key := item.value]
      ensures len == if item.key in ToMap(items0) then |items0| else |items0| + 1
    {
      hide Valid, Matches, Seek.Stored, Seek.Written, Gap, Next;
      ghost var seek := SeekFrom(item, start, free);
      var cap := index.Length;
      var pos := hash(item.key) % cap;
      var d := 0;
      var newIdx := -1;
      InTable(seek, start, items0, item);
      while true
        invariant Matches(seek, start, items0, item) && pos < cap && free < cap
        invariant seek.pos == pos && seek.d == d && seek.carry == newIdx && seek.free == free
        decreases Gap(pos, free, cap)
      {
        InTable(seek, start, items0, item);
        if index[pos] == HM_EMPTY {
          Settle(item, pos, newIdx, d, seek, start, items0);
          return;
        }
        var curIdx := index[pos];
        KeyAt(seek, start, items0, item);
        if items[curIdx].key == item.key {
          Overwrite(item, curIdx, seek, start, items0);
          return;
        }
        if dist[pos] < d {
          newIdx, d, seek := Displace(item, pos, newIdx, d, seek, start, items0);
        } else {
          Skip(seek, start, items0, item);
          seek := seek.Ahead();
        }
        pos := Next(pos, cap);
        d := d + 1;
      }
    }

    ghost function SeekFrom(item: Item<K, V>, start: Probe<K>, free: nat): Seek<K>
      reads this
      requires index.Length > 0
    {
      Seek(start, item.key, item.key, hash(item.key) % index.Length, 0, -1, free, free)
    }

    lemma InTable(seek: Seek<K>, start: Probe<K>, items0: seq<Item<K, V>>, item: Item<K, V>)
      requires Matches(seek, start, items0, item)
      ensures index.Length == dist.Length == items.Length == seek.table.Cap()
      ensures seek.pos < index.Length && seek.free < index.Length
    {
    }

    lemma Skip(seek: Seek<K>, start: Probe<K>, items0: seq<Item<K, V>>, item: Item<K, V>)
      requires Matches(seek, start, items0, item) && seek.pos < index.Length == dist.Length == items.Length
      requires 0 <= index[seek.pos] < len <= items.Length && dist[seek.pos] >= seek.d
      requires items[index[seek.pos]].key != item.key
      ensures seek.pos < seek.table.Cap() && Matches(seek.Ahead(), start, items0, item)
      ensures seek.free < index.Length && seek.Ahead().pos < index.Length
      ensures Gap(seek.Ahead().pos, seek.free, index.Length) == Gap(seek.pos, seek.free, index.Length) - 1
    {
      assert seek.table.Occupied(seek.pos);
      KeyAt(seek, start, items0, item);
      seek.Skipped(start);
    }

    lemma KeyAt(seek: Seek<K>, start: Probe<K>, items0: seq<Item<K, V>>, item: Item<K, V>)
      requires Matches(seek, start, items0, item) && index[seek.pos] != HM_EMPTY
      ensures len <= items.Length
      ensures 0 <= index[seek.pos] < len
      ensures items[index[seek.pos]].key == item.key ==> seek.carry == -1
      ensures seek.carry == -1 ==> items[index[seek.pos]].key == start.keys[start.index[seek.pos]]
    {
      assert seek.table.Occupied(seek.pos);
      if seek.carry != -1 {
        seek.NeverTheKey(start);
        assert items[..len][index[seek.pos]].key == seek.table.keys[index[seek.pos]];
      }
    }

    lemma LenIsSize()
      requires Valid()
      ensures len == |Model()|
    {
      ValidKeys();
      ToMapSize(items[..len]);
    }

    /** _hm_put_impl. Growing happens first, so that a put during growth never grows again: the
        termination measure of the mutual recursion with Resize is exactly that. */
    method Put(item: Item<K, V>)
      requires Valid()
      modifies this, index, dist, items
      ensures Valid() && Model() == old(Model())[item.key := item.value]
      ensures index.Length > 0 && len == |Model()|
      ensures if old(index.Length > 0 && !Full())
        then index == old(index) && dist == old(dist) && items == old(items)
        else fresh(index) && fresh(dist) && fresh(items)
      decreases if index.Length > 0 && Full() then 2 else 0
    {
      if index.Length == 0 {
        Init(DEFAULT_CAPACITY);
      }
      if Full() {
        Resize();
      }
      ghost var free := Begin(item);
      Insert(item, Snap(), items[..len], free);
      LenIsSize();
    }

    /** The insertion loop starts in a state that agrees with the table. */
    lemma Begin(item: Item<K, V>) returns (free: nat)
      requires Valid() && !Full()
      ensures index.Length > 0 && Matches(SeekFrom(item, Snap(), free), Snap(), items[..len], item)
    {
      free := Snap().FreeExists();
    }

    /** _hm_resize: re-inserts every item, in slot order, into arrays of twice the size. */
    method Resize()
      requires Valid() && index.Length > 0
      modifies this
      ensures Valid() && Model() == old(Model()) && len == old(len)
      ensures fresh(index) && fresh(dist) && fresh(items) && index.Length == 2 * old(index.Length)
      decreases 1
    {
      var oldIndex, oldItems, oldCap := index, items, index.Length;
      ghost var old0, items0 := Snap(), items[..len];
      LenIsSize();
      Init(2 * oldCap);
      for i := 0 to oldCap
        invariant Valid() && index.Length == 2 * oldCap && len == |Model()|
        invariant fresh(index) && fresh(dist) && fresh(items)
        invariant oldIndex[..] == old0.index && oldItems[..|items0|] == items0
        invariant Moved(old0, items0, Model(), i)
      {
        if oldIndex[i] != HM_EMPTY {
          MoveOne(old0, items0, Model(), i);
          Put(oldItems[oldIndex[i]]);
        } else {
          MoveNone(old0, items0, Model(), i);
        }
      }
      MovedAll(old0, items0, Model());
      LenIsSize();
    }

    /** The second probe loop of _hm_del_impl: walks from the home of the item that moved from
        `last` to idx until the slot naming `last`, and makes that slot name idx. The walk ends
        because such a slot exists somewhere on the ring. */
    method Relink(idx: nat, last: nat)
      requires index.Length == dist.Length == items.Length && index.Length > 0
      requires idx < last < |slot| && last < items.Length
      requires slot[last] < index.Length && index[slot[last]] == last
      requires forall p :: 0 <= p < index.Length && index[p] == last ==> p == slot[last]
      modifies index
      ensures index[..] == old(index[..])[slot[last] := idx]
    {
      var cap := index.Length;
      var pos := hash(items[idx].key) % cap;
      while index[pos] != last
        invariant 0 <= pos < cap
        decreases Gap(pos, slot[last], cap)
      {
        pos := Next(pos, cap);
      }
      index[pos] := idx;
    }

    method MoveBack(cur: nat, next: nat)
      requires index.Length == dist.Length && index != dist && cur < index.Length && next < index.Length
      requires 0 <= index[next] < |slot|
      modifies index, dist, this`slot
      ensures index[..] == old(index[..][cur := index[next]])
      ensures dist[..] == old(dist[..][cur := dist[next] - 1])
      ensures slot == old(slot[index[next] := cur])
    {
      slot := slot[index[next] := cur];
      index[cur] := index[next];
      dist[cur] := dist[next] - 1;
    }

    /** The backward shift of _hm_del_impl: closes the stale slot `pos` by moving the rest of its
        run back, up to a free slot or an item that stands at its home. */
    method BackShift(pos: nat, ghost start: Probe<K>) returns (ghost s: Probe<K>)
      requires index.Length == dist.Length > 0 && index != dist
      requires start == Probe(hash, index[..], dist[..], start.keys, slot)
      requires start.Sized() && pos < start.Cap() && start.Partial(-1, pos) && start.Occupied(pos)
      requires |start.keys| + 1 < start.Cap()
      modifies index, dist, this`slot
      ensures s.Inv() && s.keys == start.keys
      ensures s == Probe(hash, index[..], dist[..], s.keys, slot)
    {
      s := start;
      ghost var e := s.FreeBeside(pos);
      var cap := index.Length;
      var cur := pos;
      var next := Next(cur, cap);
      while index[next] != HM_EMPTY && dist[next] > 0
        invariant s == Probe(hash, index[..], dist[..], start.keys, slot)
        invariant s.Sized() && 0 <= cur < cap && next == Next(cur, cap)
        invariant s.Partial(-1, cur) && s.Occupied(cur) && s.IsFree(e)
        decreases Gap(cur, e, cap)
      {
        assert s.Occupied(next);
        s.Shifted(cur, e);
        s := s.Shift(cur);
        MoveBack(cur, next);
        cur := next;
        next := Next(next, cap);
      }
      s.Cleared(cur);
      s := s.Clear(cur);
      index[cur] := HM_EMPTY;
      dist[cur] := 0;
    }

    /** The middle block of _hm_del_impl: the last item moves into the place of item idx. */
    method Vacate(idx: nat)
      requires Valid() && idx < len
      modifies index, items, this`len, this`slot
      ensures len == old(len) - 1
      ensures items[..len] == old(items[..len])[idx := old(items[len - 1])][..len]
      ensures Snap() == old(Snap()).Drop(idx)
    {
      ghost var start := Snap();
      var last := len - 1;
      start.LastNamed();
      hide Probe.Inv, Probe.Partial;
      if idx != last {
        items[idx] := items[last];
        Relink(idx, last);
        slot := slot[idx := slot[last]];
      }
      len := len - 1;
      slot := slot[..len];
    }

    /** Deletes the item that slot pos names. */
    method RemoveAt(pos: nat)
      requires Valid() && pos < index.Length && 0 <= index[pos] < len && slot[index[pos]] == pos
      modifies index, dist, items, this`len, this`slot
      ensures Valid() && len == old(len) - 1
      ensures items[..len] == old(items[..len][index[pos] := items[len - 1]])[..len]
    {
      var idx := index[pos];
      Snap().Dropped(idx);
      Vacate(idx);
      ghost var start := Snap();
      ghost var s := BackShift(pos, start);
      assert Snap() == s;
    }

    /** _hm_del_impl. */
    method Del(key: K)
      requires Valid()
      modifies index, dist, items, this`len, this`slot
      ensures Valid() && Model() == old(Model()) - {key}
      ensures len == if key in old(Model()) then old(len) - 1 else old(len)
    {
      ToMapKeys(items[..len], key);
      if index.Length == 0 {
        return;
      }
      var found, pos := Find(key);
      if !found {
        Absent(key);
        return;
      }
      Removed(key, index[pos]);
      RemoveAt(pos);
    }

    lemma Absent(key: K)
      requires Valid() && key !in Snap().keys
      ensures key !in Model()
    {
      ToMapKeys(items[..len], key);
      forall i | 0 <= i < len
        ensures items[..len][i].key != key
      {
        assert Snap().keys[i] == items[..len][i].key;
      }
    }

    lemma Removed(key: K, idx: nat)
      requires Valid() && idx < len && items[idx].key == key
      ensures key in Model()
      ensures ToMap(items[..len][idx := items[len - 1]][..len - 1]) == Model() - {key}
    {
      ValidKeys();
      ToMapAt(items[..len], idx);
      ToMapDrop(items[..len], idx);
    }

    method Do(op: Op<K, V>)
      requires Valid()
      modifies this, index, dist, items
      ensures Valid() && Model() == Step(old(Model()), op)
      ensures fresh(Repr() - old(Repr()))
    {
      match op
      case Put(item) => Put(item);
      case Del(key) => Del(key);
    }
  }

  /** Every run from the empty table, through any number of resizes, keeps the invariant and
      leaves the map it should; len is the number of its keys. */
  method Run<K(==, 0), V(0)>(hash: K -> nat, ops: seq<Op<K, V>>) returns (t: Table<K, V>)
    ensures t.Valid() && t.Model() == After(ops) && t.len == |After(ops)|
  {
    t := new Table(hash);
    for i := 0 to |ops|
      invariant t.Valid() && fresh(t.Repr()) && t.Model() == After(ops[..i])
    {
      assert ops[..i + 1][..i] == ops[..i];
      t.Do(ops[i]);
    }
    assert ops[..|ops|] == ops;
    t.LenIsSize();
  }
}
