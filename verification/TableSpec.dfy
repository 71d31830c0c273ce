/** The hash table's operations as functions of its slots and its counter, and what they do to the map. */
module TableSpec {
  import opened Basics
  import opened Probing

  /** The number of slots in use; `count` of a table may differ from it. */
  function Used(s: seq<Slot>): (n: nat)
    ensures n <= |s|
  {
    if s == [] then 0 else Used(s[..|s| - 1]) + InUse(s[|s| - 1])
  }

  function InUse(slot: Slot): nat {
    if slot.key.Some? then 1 else 0
  }

  lemma {:induction false} UsedAfterUpdate(s: seq<Slot>, i: nat, item: Slot)
    requires i < |s|
    ensures Used(s[i := item]) == Used(s) - InUse(s[i]) + InUse(item)
  {
    var n := |s| - 1;
    if i == n {
      assert s[i := item][..n] == s[..n];
    } else {
      UsedAfterUpdate(s[..n], i, item);
      assert s[i := item][..n] == s[..n][i := item];
    }
  }

  lemma {:induction false} FullIff(s: seq<Slot>)
    ensures Used(s) == |s| <==> forall i :: 0 <= i < |s| ==> s[i].key.Some?
  {
    if s != [] {
      FullIff(s[..|s| - 1]);
      if Used(s) == |s| {
        forall i | 0 <= i < |s| ensures s[i].key.Some? {
          assert i < |s| - 1 ==> s[..|s| - 1][i] == s[i];
        }
      }
    }
  }

  lemma MapOfPrefix(s: seq<Slot>, i: nat)
    requires Distinct(s) && i < |s|
    ensures Distinct(s[..i]) && Distinct(s[..i + 1])
    ensures s[i].key.None? ==> MapOf(s[..i + 1]) == MapOf(s[..i])
    ensures s[i].key.Some? ==> s[i].key.value !in MapOf(s[..i])
    ensures s[i].key.Some? ==> MapOf(s[..i + 1]) == MapOf(s[..i])[s[i].key.value := s[i].value]
  {
    var a, b := s[..i], s[..i + 1];
    forall j: nat, k: Key ensures Stores(a, j, k) <==> (j < i && Stores(s, j, k)) {}
    forall j: nat, k: Key ensures Stores(b, j, k) <==> (j <= i && Stores(s, j, k)) {}
    if s[i].key.Some? {
      assert Stores(s, i, s[i].key.value);
    }
    SameEntries(a, b, i);
  }

  lemma SameEntries(a: seq<Slot>, b: seq<Slot>, i: nat)
    requires Distinct(a) && Distinct(b) && |a| == i && |b| == i + 1 && b[..i] == a
    ensures b[i].key.None? ==> MapOf(b) == MapOf(a)
    ensures b[i].key.Some? ==> b[i].key.value !in MapOf(a)
    ensures b[i].key.Some? ==> MapOf(b) == MapOf(a)[b[i].key.value := b[i].value]
  {
    assert forall j :: 0 <= j < i ==> b[j] == b[..i][j] == a[j];
    forall k: Key | k in MapOf(a) ensures k in MapOf(b) && MapOf(b)[k] == MapOf(a)[k] && b[i].key != Some(k) {
      var j: nat :| Stores(a, j, k);
      assert Stores(b, j, k);
      assert !Stores(b, i, k);
    }
    forall k: Key | k in MapOf(b) ensures k in MapOf(a) || b[i].key == Some(k) {
      var j: nat :| Stores(b, j, k);
      assert j < i ==> Stores(a, j, k);
    }
    if b[i].key.Some? {
      assert Stores(b, i, b[i].key.value);
    }
  }

  /** With distinct keys the slots in use and the map are equally many. */
  lemma {:induction false} UsedIsMapSize(s: seq<Slot>)
    requires Distinct(s)
    ensures |MapOf(s)| == Used(s)
  {
    if s == [] {
      assert MapOf(s) == map[];
    } else {
      var n := |s| - 1;
      MapOfPrefix(s, n);
      UsedIsMapSize(s[..n]);
      assert s[..n + 1] == s;
    }
  }

  // ---- rehashing ----

  lemma SomeSlotLeft(s: seq<Slot>, start: nat, d: nat)
    requires start < |s| && Used(s) < |s| && Passed(s, start, None, d)
    ensures d < |s|
  {
    FullIff(s);
    assert exists i :: 0 <= i < |s| && !s[i].key.Some?;
    var i :| 0 <= i < |s| && !s[i].key.Some?;
    assert Dist(start, i, |s|) < |s|;
  }

  /** The probe loop of `VHashTable_Rehash`, having made `d` steps from `start`. */
  function FirstFree(s: seq<Slot>, start: nat, d: nat): (i: nat)
    requires start < |s| && Used(s) < |s| && Passed(s, start, None, d)
    ensures i < |s| && s[i].key == None && Passed(s, start, None, Dist(start, i, |s|))
    decreases |s| - d
  {
    SomeSlotLeft(s, start, d);
    var i := Wrapped(start, d, |s|);
    if s[i].key == None then
      assert Dist(start, i, |s|) == d;
      i
    else
      PassedOneMore(s, start, None, d);
      FirstFree(s, start, d + 1)
  }

  /** Copying one item of the old array. Items without a key are copied too. */
  function Place(s: seq<Slot>, item: Slot): (r: seq<Slot>)
    requires Used(s) < |s|
    ensures |r| == |s| && Used(r) == Used(s) + InUse(item)
  {
    var i := FirstFree(s, item.hash % |s|, 0);
    UsedAfterUpdate(s, i, item);
    s[i := item]
  }

  /** The copying loop of `VHashTable_Rehash` from index `i` on. At most `i` slots of the
      new array are in use, so every inner probe stops. */
  function CopyFrom(items: seq<Slot>, i: nat, acc: seq<Slot>): (r: seq<Slot>)
    requires i <= |items| && |acc| == 2 * |items| && Used(acc) <= i
    ensures |r| == |acc|
    decreases |items| - i
  {
    if i == |items| then acc else CopyFrom(items, i + 1, Place(acc, items[i]))
  }

  function FreeSlots(n: nat): (s: seq<Slot>)
    ensures |s| == n && forall i :: 0 <= i < n ==> s[i] == FREE_SLOT
    ensures Used(s) == 0
  {
    if n == 0 then [] else
      var s := FreeSlots(n - 1) + [FREE_SLOT];
      assert s[..n - 1] == FreeSlots(n - 1);
      s
  }

  function Doubled(s: seq<Slot>): (r: seq<Slot>)
    ensures |r| == 2 * |s|
  {
    CopyFrom(s, 0, FreeSlots(2 * |s|))
  }

  lemma PlaceRefines(s: seq<Slot>, item: Slot)
    requires Inv(s) && Used(s) < |s|
    requires item.key.Some? ==> item.hash == Djb2(item.key.value) && item.key.value !in MapOf(s)
    ensures Inv(Place(s, item))
    ensures MapOf(Place(s, item)) ==
            if item.key.Some? then MapOf(s)[item.key.value := item.value] else MapOf(s)
  {
    var i := FirstFree(s, item.hash % |s|, 0);
    if item.key.Some? {
      assert forall j: nat :: !Stores(s, j, item.key.value);
      FillFree(s, i, item);
    } else {
      var t := s[i := item];
      assert forall j :: 0 <= j < |s| ==> t[j].key == s[j].key && (s[j].key.Some? ==> t[j] == s[j]);
      assert RunsUnbroken(t);
      SameSlotsSameMap(s, t);
    }
  }

  lemma SameSlotsSameMap(s: seq<Slot>, t: seq<Slot>)
    requires Distinct(s) && |s| == |t|
    requires forall j :: 0 <= j < |s| ==> t[j].key == s[j].key && (s[j].key.Some? ==> t[j] == s[j])
    ensures Distinct(t) && MapOf(s) == MapOf(t)
  {
    forall j: nat, k: Key ensures Stores(s, j, k) <==> Stores(t, j, k) {}
    forall k | k in MapOf(s) ensures k in MapOf(t) && MapOf(t)[k] == MapOf(s)[k] {
      var j: nat :| Stores(s, j, k);
      assert Stores(t, j, k);
    }
    forall k | k in MapOf(t) ensures k in MapOf(s) {
      var j: nat :| Stores(t, j, k);
      assert Stores(s, j, k);
    }
  }

  lemma {:induction false} CopyRefines(items: seq<Slot>, i: nat, acc: seq<Slot>)
    requires Distinct(items) && HashesRight(items)
    requires 0 < |items| && i <= |items| && |acc| == 2 * |items| && Used(acc) <= i
    requires Inv(acc) && Distinct(items[..i]) && MapOf(acc) == MapOf(items[..i])
    ensures var r := CopyFrom(items, i, acc); Inv(r) && MapOf(r) == MapOf(items)
    decreases |items| - i
  {
    if i == |items| {
      assert items[..i] == items;
    } else {
      MapOfPrefix(items, i);
      PlaceRefines(acc, items[i]);
      CopyRefines(items, i + 1, Place(acc, items[i]));
    }
  }

  /** Rehashing keeps the map and establishes the invariant, even on an array whose runs
      `Remove` has broken: it needs only distinct keys and right stored hashes. */
  lemma {:induction false} DoublingRepairs(s: seq<Slot>)
    requires 0 < |s| && Distinct(s) && HashesRight(s)
    ensures Inv(Doubled(s)) && MapOf(Doubled(s)) == MapOf(s)
    ensures Used(Doubled(s)) == Used(s)
  {
    var blank := FreeSlots(2 * |s|);
    assert MapOf(blank) == map[] == MapOf(s[..0]);
    CopyRefines(s, 0, blank);
    UsedIsMapSize(s);
    UsedIsMapSize(Doubled(s));
  }

  // ---- the table ----

  /** The table's value: its slots (as many as its capacity) and the field `Count`. */
  datatype Table = Table(slots: seq<Slot>, count: nat)

  const INIT_CAPACITY: nat := 16

  function InitialCapacity(capacity: nat): nat {
    if capacity == 0 then INIT_CAPACITY else capacity
  }

  function NewTable(capacity: nat): Table {
    Table(FreeSlots(InitialCapacity(capacity)), 0)
  }

  /** The growth check that opens `VHashTable_Insert`. `Count` restarts at zero and is not restored. */
  function Grown(t: Table): (r: Table)
    ensures 0 < |t.slots| ==> 0 < |r.slots|
  {
    if t.count >= |t.slots| then Table(Doubled(t.slots), 0) else t
  }

  /** `VHashTable_Insert`; `None` when its probe loop never stops. */
  function Inserted(t: Table, k: Key, v: Text): (r: Option<Table>)
    requires 0 < |t.slots|
    ensures r.Some? ==> 0 < |r.value.slots|
  {
    var g := Grown(t);
    match Probe(g.slots, k, 0)
    case Loops => None
    case Hit(_) => Some(Table(Store(g.slots, k, v), g.count))
    case Miss(_) => Some(Table(Store(g.slots, k, v), g.count + 1))
  }

  /** The outcome of an insertion, from where the probe of the grown table stops. */
  lemma InsertedAt(t: Table, k: Key, v: Text, o: Outcome)
    requires 0 < |t.slots| && Probe(Grown(t).slots, k, 0) == o && o != Loops
    ensures o.at < |Grown(t).slots|
    ensures var g := Grown(t);
      Inserted(t, k, v) == Some(
        if o.Hit? then Table(g.slots[o.at := g.slots[o.at].(value := v)], g.count)
        else Table(g.slots[o.at := Slot(Some(k), v, Djb2(k))], g.count + 1))
  {
    ProbeInRange(Grown(t).slots, k, 0);
  }

  // ---- histories of insertions ----

  /** Inserting a list of pairs in order; `None` when one of the calls does not return. */
  function InsertAll(t: Table, h: seq<(Key, Text)>): Option<Table>
    requires 0 < |t.slots|
    decreases h
  {
    if h == [] then Some(t)
    else
      match Inserted(t, h[0].0, h[0].1)
      case None => None
      case Some(t') => InsertAll(t', h[1..])
  }

  /** The map the same updates build. */
  function UpdateAll(m: map<Key, Text>, h: seq<(Key, Text)>): map<Key, Text>
    decreases h
  {
    if h == [] then m else UpdateAll(m[h[0].0 := h[0].1], h[1..])
  }

  function KeysOf(h: seq<(Key, Text)>): set<Key> {
    set i | 0 <= i < |h| :: h[i].0
  }

  /** A table created with capacity `c` and filled by insertions alone: not yet rehashed, with an
      exact `Count`, or rehashed once, with a `Count` that is `c` too small. */
  ghost predicate History(c: nat, t: Table) {
    0 < c && Inv(t.slots)
    && (   (|t.slots| == c && |MapOf(t.slots)| == t.count)
        || (|t.slots| == 2 * c && |MapOf(t.slots)| == c + t.count))
  }

  lemma GrownHistory(c: nat, t: Table)
    requires History(c, t)
    ensures var g := Grown(t);
      History(c, g) && MapOf(g.slots) == MapOf(t.slots) && g.count < |g.slots|
      && |MapOf(g.slots)| <= |g.slots|
  {
    UsedIsMapSize(t.slots);
    if t.count >= |t.slots| {
      DoublingRepairs(t.slots);
    }
  }

  lemma SizeWithKey(m: map<Key, Text>, k: Key, v: Text)
    ensures m[k := v].Keys == m.Keys + {k}
    ensures |m[k := v]| == if k in m then |m| else |m| + 1
  {
    assert m[k := v].Keys == m.Keys + {k};
    if k in m {
      assert m.Keys + {k} == m.Keys;
    }
  }

  lemma HitIffInMap(s: seq<Slot>, k: Key)
    requires Inv(s)
    ensures Probe(s, k, 0).Hit? <==> k in MapOf(s)
  {
    if k in MapOf(s) {
      var j: nat :| Stores(s, j, k);
      HitIffStored(s, k, j);
    } else if Probe(s, k, 0).Hit? {
      HitIffStored(s, k, Probe(s, k, 0).at);
    }
  }

  /** A probe runs forever exactly when the map fills the slots and lacks the key. */
  lemma LoopsIffNoRoom(s: seq<Slot>, k: Key)
    requires Inv(s)
    ensures Probe(s, k, 0) == Loops <==> |MapOf(s)| == |s| && k !in MapOf(s)
  {
    UsedIsMapSize(s);
    FullIff(s);
    LoopsIffFullWithout(s, k);
    if |MapOf(s)| == |s| && k !in MapOf(s) {
      forall i | 0 <= i < |s| ensures s[i].key.Some? && s[i].key != Some(k) {
        assert !Stores(s, i, k);
      }
    }
    if Probe(s, k, 0) == Loops {
      HitIffInMap(s, k);
    }
  }

  /** An insertion that needs no growth: when it returns, and the table it leaves. */
  lemma InsertNoGrowth(g: Table, k: Key, v: Text)
    requires Inv(g.slots) && g.count < |g.slots|
    ensures Inserted(g, k, v).None? <==> |MapOf(g.slots)| == |g.slots| && k !in MapOf(g.slots)
    ensures Inserted(g, k, v).Some? ==>
              var t := Inserted(g, k, v).value;
              && |t.slots| == |g.slots| && Inv(t.slots)
              && MapOf(t.slots) == MapOf(g.slots)[k := v]
              && t.count == if k in MapOf(g.slots) then g.count else g.count + 1
  {
    LoopsIffNoRoom(g.slots, k);
    HitIffInMap(g.slots, k);
    if Probe(g.slots, k, 0) != Loops {
      StoreRefines(g.slots, k, v);
    }
  }

  /** What one insertion of `k` must leave behind, given the map `m` before it: it returns exactly
      when `m` has room for the key among `2c`, and then updates the map. */
  ghost predicate Refines(c: nat, m: map<Key, Text>, k: Key, v: Text, r: Option<Table>) {
    && (r.Some? <==> k in m || |m| < 2 * c)
    && (r.Some? ==> History(c, r.value) && MapOf(r.value.slots) == m[k := v])
  }

  lemma InsertAfterGrowth(c: nat, g: Table, k: Key, v: Text)
    requires History(c, g) && g.count < |g.slots| && |MapOf(g.slots)| <= |g.slots|
    ensures Refines(c, MapOf(g.slots), k, v, Inserted(g, k, v))
  {
    InsertNoGrowth(g, k, v);
    var n, full := |MapOf(g.slots)|, |g.slots|;
    assert n == full ==> full == 2 * c;
    if Inserted(g, k, v).Some? {
      SizeWithKey(MapOf(g.slots), k, v);
      var t := Inserted(g, k, v).value;
      assert |MapOf(t.slots)| - t.count == n - g.count;
    }
  }

  lemma InsertStep(c: nat, t: Table, k: Key, v: Text)
    requires History(c, t)
    ensures Refines(c, MapOf(t.slots), k, v, Inserted(t, k, v))
  {
    GrownHistory(c, t);
    InsertAfterGrowth(c, Grown(t), k, v);
    InsertedGrown(t, k, v);
  }

  lemma InsertedGrown(t: Table, k: Key, v: Text)
    requires 0 < |t.slots|
    requires Grown(t).count < |Grown(t).slots|
    ensures Inserted(t, k, v) == Inserted(Grown(t), k, v)
  {
    assert Grown(Grown(t)) == Grown(t);
  }

  lemma {:induction false} UpdateAllKeys(m: map<Key, Text>, h: seq<(Key, Text)>)
    ensures UpdateAll(m, h).Keys == m.Keys + KeysOf(h)
    decreases h
  {
    if h == [] {
      assert KeysOf(h) == {};
    } else {
      UpdateAllKeys(m[h[0].0 := h[0].1], h[1..]);
      assert h == [h[0]] + h[1..];
      assert KeysOf(h) == {h[0].0} + KeysOf(h[1..]) by {
        forall k | k in KeysOf(h) ensures k in {h[0].0} + KeysOf(h[1..]) {
          var i :| 0 <= i < |h| && h[i].0 == k;
          assert i > 0 ==> h[1..][i - 1].0 == k;
        }
        forall k | k in KeysOf(h[1..]) ensures k in KeysOf(h) {
          var i :| 0 <= i < |h[1..]| && h[1..][i].0 == k;
          assert h[i + 1].0 == k;
        }
      }
    }
  }

  lemma SubsetSize<T>(a: set<T>, b: set<T>)
    requires a <= b
    ensures |a| <= |b|
  {
    assert b == a + (b - a);
  }

  lemma {:induction false} HistoryTheorem(c: nat, t: Table, h: seq<(Key, Text)>)
    requires History(c, t) && |MapOf(t.slots)| <= 2 * c
    ensures InsertAll(t, h).Some? <==> |UpdateAll(MapOf(t.slots), h)| <= 2 * c
    ensures InsertAll(t, h).Some? ==>
              var t' := InsertAll(t, h).value;
              History(c, t') && MapOf(t'.slots) == UpdateAll(MapOf(t.slots), h)
    decreases h
  {
    if h != [] {
      var k, v := h[0].0, h[0].1;
      InsertStep(c, t, k, v);
      SizeWithKey(MapOf(t.slots), k, v);
      var m := MapOf(t.slots)[k := v];
      if Inserted(t, k, v).Some? {
        HistoryTheorem(c, Inserted(t, k, v).value, h[1..]);
      } else {
        UpdateAllKeys(m, h[1..]);
        SubsetSize(m.Keys, UpdateAll(m, h[1..]).Keys);
      }
    }
  }

  /** A table created with capacity `c` takes a list of insertions exactly when the list has at most
      `2c` distinct keys; it then has rehashed at most once and stands for the map the list builds. */
  lemma FreshTableTheorem(capacity: nat, h: seq<(Key, Text)>)
    ensures InsertAll(NewTable(capacity), h).Some? <==> |KeysOf(h)| <= if capacity == 0 then 32 else 2 * capacity
    ensures |NewTable(capacity).slots| == if capacity == 0 then 16 else capacity
    ensures var c := InitialCapacity(capacity);
      && (InsertAll(NewTable(capacity), h).Some? <==> |KeysOf(h)| <= 2 * c)
      && (InsertAll(NewTable(capacity), h).Some? ==>
            var t := InsertAll(NewTable(capacity), h).value;
            && Inv(t.slots) && (|t.slots| == c || |t.slots| == 2 * c)
            && MapOf(t.slots) == UpdateAll(map[], h)
            && forall k: Key :: k in KeysOf(h) ==>
                  k in UpdateAll(map[], h) && Lookup(t.slots, k) == Found(UpdateAll(map[], h)[k]))
  {
    var c := InitialCapacity(capacity);
    var t := NewTable(capacity);
    assert MapOf(t.slots) == map[];
    HistoryTheorem(c, t, h);
    UpdateAllKeys(map[], h);
    assert {} + KeysOf(h) == KeysOf(h);
    if InsertAll(t, h).Some? {
      forall k: Key | k in KeysOf(h) ensures Lookup(InsertAll(t, h).value.slots, k) == Found(UpdateAll(map[], h)[k]) {
        LookupIsMap(InsertAll(t, h).value.slots, k);
      }
    }
  }

  lemma {:induction false} UpdateAllGrows(m: map<Key, Text>, h: seq<(Key, Text)>)
    ensures |m| <= |UpdateAll(m, h)|
  {
    UpdateAllKeys(m, h);
    SubsetSize(m.Keys, UpdateAll(m, h).Keys);
  }

  /** Whether a list of insertions has rehashed the table. */
  lemma {:induction false} RehashedIff(c: nat, t: Table, h: seq<(Key, Text)>)
    requires History(c, t) && InsertAll(t, h).Some?
    ensures |InsertAll(t, h).value.slots| == 2 * c <==>
            |t.slots| == 2 * c || (h != [] && c <= |UpdateAll(MapOf(t.slots), h[..|h| - 1])|)
    decreases h
  {
    if h != [] {
      var k, v := h[0].0, h[0].1;
      InsertStep(c, t, k, v);
      GrowthIff(c, t, k, v);
      var t' := Inserted(t, k, v).value;
      RehashedIff(c, t', h[1..]);
      if |h| > 1 {
        AllButLast(MapOf(t.slots), h);
      }
    }
  }

  lemma AllButLast(m: map<Key, Text>, h: seq<(Key, Text)>)
    requires |h| > 1
    ensures UpdateAll(m, h[..|h| - 1]) == UpdateAll(m[h[0].0 := h[0].1], h[1..][..|h[1..]| - 1])
    ensures |m| <= |UpdateAll(m, h[..|h| - 1])|
  {
    assert h[..|h| - 1][1..] == h[1..][..|h[1..]| - 1];
    UpdateAllGrows(m, h[..|h| - 1]);
  }

  lemma {:induction false} GrowthIff(c: nat, t: Table, k: Key, v: Text)
    requires History(c, t) && Inserted(t, k, v).Some?
    ensures |Inserted(t, k, v).value.slots| == 2 * c <==> |t.slots| == 2 * c || c <= |MapOf(t.slots)|
  {
    GrownHistory(c, t);
    InsertNoGrowth(Grown(t), k, v);
    InsertedGrown(t, k, v);
    UsedIsMapSize(t.slots);
  }

  /** The insertions before the last one have as many distinct keys as the table had capacity. */
  predicate Rehashes(c: nat, h: seq<(Key, Text)>) {
    h != [] && c <= |KeysOf(h[..|h| - 1])|
  }

  /** `Count` after a list of insertions into a new table: the number of distinct keys, unless the table has
      rehashed; then it is short by the capacity. */
  lemma {:induction false} CountAfterInsertions(capacity: nat, h: seq<(Key, Text)>)
    requires InsertAll(NewTable(capacity), h).Some?
    ensures History(InitialCapacity(capacity), InsertAll(NewTable(capacity), h).value)
    ensures |InsertAll(NewTable(capacity), h).value.slots| == 2 * InitialCapacity(capacity)
       <==> Rehashes(InitialCapacity(capacity), h)
    ensures InsertAll(NewTable(capacity), h).value.count ==
            |KeysOf(h)| - if Rehashes(InitialCapacity(capacity), h) then InitialCapacity(capacity) else 0
  {
    var c, t := InitialCapacity(capacity), NewTable(capacity);
    assert MapOf(t.slots) == map[];
    HistoryTheorem(c, t, h);
    RehashedIff(c, t, h);
    KeysFromEmpty(h);
    if h != [] {
      KeysFromEmpty(h[..|h| - 1]);
    }
  }

  /** The distinct keys of the list fill the table it builds. */
  predicate Packed(c: nat, h: seq<(Key, Text)>) {
    |KeysOf(h)| == if Rehashes(c, h) then 2 * c else c
  }

  /** Get after a list of insertions into a new table: the last value of a key in the list; for another key
      nothing, unless the keys of the list fill the table, when the call never returns. */
  lemma {:induction false} LookupAfterInsertions(capacity: nat, h: seq<(Key, Text)>, t: Table, k: Key)
    requires InsertAll(NewTable(capacity), h) == Some(t)
    ensures 0 < |t.slots| && (k in KeysOf(h) ==> k in UpdateAll(map[], h))
    ensures Lookup(t.slots, k) ==
            if k in KeysOf(h) then Found(UpdateAll(map[], h)[k])
            else if Packed(InitialCapacity(capacity), h) then NoAnswer else NotFound
  {
    CountAfterInsertions(capacity, h);
    FreshTableTheorem(capacity, h);
    KeysFromEmpty(h);
    LookupIsMap(t.slots, k);
    FullIff(t.slots);
    UsedIsMapSize(t.slots);
  }

  lemma KeysFromEmpty(h: seq<(Key, Text)>)
    ensures UpdateAll(map[], h).Keys == KeysOf(h) && |UpdateAll(map[], h)| == |KeysOf(h)|
  {
    UpdateAllKeys(map[], h);
    assert {} + KeysOf(h) == KeysOf(h);
  }

  /** In a list without repeated keys each key ends with its own value. */
  lemma {:induction false} UpdateAllAt(m: map<Key, Text>, h: seq<(Key, Text)>, i: nat)
    requires i < |h|
    requires forall j :: i < j < |h| ==> h[j].0 != h[i].0
    ensures h[i].0 in UpdateAll(m, h) && UpdateAll(m, h)[h[i].0] == h[i].1
    decreases h
  {
    var m' := m[h[0].0 := h[0].1];
    if i == 0 {
      UpdateAllOther(m', h[1..], h[0].0);
    } else {
      UpdateAllAt(m', h[1..], i - 1);
    }
  }

  lemma {:induction false} UpdateAllOther(m: map<Key, Text>, h: seq<(Key, Text)>, k: Key)
    requires k in m && forall j :: 0 <= j < |h| ==> h[j].0 != k
    ensures k in UpdateAll(m, h) && UpdateAll(m, h)[k] == m[k]
    decreases h
  {
    if h != [] {
      UpdateAllOther(m[h[0].0 := h[0].1], h[1..], k);
    }
  }
}
