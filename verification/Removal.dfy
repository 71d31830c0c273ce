/** What `VHashTable_Remove` does to the keys that stay: it frees a slot and moves nothing. */
module Removal {
  import opened Basics
  import opened Probing
  import opened TableSpec

  /** The slots after freeing slot `f`; value and hash of the item stay behind. */
  function Freed(s: seq<Slot>, f: nat): seq<Slot>
    requires f < |s|
  {
    s[f := s[f].(key := None)]
  }

  /** `Count` is a 64-bit unsigned field and may already be zero after a rehash. */
  function Decremented(count: nat): nat {
    if count == 0 then U64 - 1 else count - 1
  }

  /** `VHashTable_Remove` where its probe stops. */
  function Removed(t: Table, k: Key): (r: Table)
    requires 0 < |t.slots| && Probe(t.slots, k, 0) != Loops
    ensures |r.slots| == |t.slots|
  {
    ProbeInRange(t.slots, k, 0);
    match Probe(t.slots, k, 0)
    case Hit(i) => Table(Freed(t.slots, i), Decremented(t.count))
    case Miss(_) => t
  }

  // ---- any table without repeated keys, whatever was removed from it ----

  /** No free slot between the home of `q` and slot `j`. */
  ghost predicate Unbroken(s: seq<Slot>, q: Key, j: nat)
    requires j < |s|
  {
    forall i :: 0 <= i < |s| && OnRun(Home(q, |s|), i, j, |s|) ==> s[i].key.Some?
  }

  /** A key is found exactly when it is stored and its own run is unbroken. */
  lemma FoundIff(s: seq<Slot>, q: Key, j: nat)
    requires 0 < |s| && Distinct(s)
    ensures Probe(s, q, 0) == Hit(j) <==> Stores(s, j, q) && Unbroken(s, q, j)
  {
    ProbeIff(s, q, Hit(j));
    if Stores(s, j, q) && Unbroken(s, q, j) {
      forall i | 0 <= i < |s| && Dist(Home(q, |s|), i, |s|) < Dist(Home(q, |s|), j, |s|)
        ensures s[i].key.Some? && s[i].key != Some(q)
      {
        assert OnRun(Home(q, |s|), i, j, |s|);
        assert Stores(s, i, q) ==> i == j;
      }
    }
  }

  /** The key is not stored, or its run is unbroken. */
  ghost predicate Findable(s: seq<Slot>, q: Key) {
    forall j: nat :: Stores(s, j, q) ==> Unbroken(s, q, j)
  }

  /** Storing a key that is stored but cannot be found stores it twice; otherwise the map is updated. */
  lemma {:induction false} StoreDistinctIff(s: seq<Slot>, q: Key, v: Text)
    requires 0 < |s| && Distinct(s) && Probe(s, q, 0) != Loops
    ensures Distinct(Store(s, q, v)) <==> Findable(s, q)
    ensures Findable(s, q) ==> MapOf(Store(s, q, v)) == MapOf(s)[q := v]
  {
    ProbeIff(s, q, Probe(s, q, 0));
    match Probe(s, q, 0)
    case Hit(i) =>
      FoundIff(s, q, i);
      assert forall j: nat :: Stores(s, j, q) ==> j == i;
      MapAfterUpdate(s, i, s[i].(value := v));
    case Miss(i) =>
      if j: nat :| Stores(s, j, q) {
        FoundIff(s, q, j);
        assert Stores(Store(s, q, v), j, q) && Stores(Store(s, q, v), i, q) && j != i;
      } else {
        assert forall j: nat :: !Stores(s, j, q);
        MapAfterUpdate(s, i, Slot(Some(q), v, Djb2(q)));
      }
  }

  /** An insertion into such a table keeps keys distinct, and then updates the map, if and only if it
      rehashes first or its key can be found if it is stored. */
  lemma {:induction false} InsertDistinctIff(t: Table, q: Key, v: Text)
    requires 0 < |t.slots| && Distinct(t.slots) && HashesRight(t.slots) && Inserted(t, q, v).Some?
    ensures var r := Inserted(t, q, v).value;
      && HashesRight(r.slots)
      && (Distinct(r.slots) <==> t.count >= |t.slots| || Findable(t.slots, q))
      && (Distinct(r.slots) ==> MapOf(r.slots) == MapOf(t.slots)[q := v])
  {
    if t.count >= |t.slots| {
      DoublingRepairs(t.slots);
      StoreRefines(Doubled(t.slots), q, v);
    } else {
      ProbeIff(t.slots, q, Probe(t.slots, q, 0));
      StoreDistinctIff(t.slots, q, v);
    }
  }

  /** Get finds exactly the stored keys with unbroken runs; for other keys it returns nothing, and in a full
      table does not return. */
  lemma LookupIff(s: seq<Slot>, q: Key)
    requires 0 < |s| && Distinct(s)
    ensures var found := exists j: nat :: Stores(s, j, q) && Unbroken(s, q, j);
      Lookup(s, q) == if found then Found(MapOf(s)[q]) else if Full(s) then NoAnswer else NotFound
  {
    LoopsIffFullWithout(s, q);
    if j: nat :| Stores(s, j, q) && Unbroken(s, q, j) {
      FoundIff(s, q, j);
    } else {
      if Probe(s, q, 0).Hit? {
        FoundIff(s, q, Probe(s, q, 0).at);
      }
      forall i: nat | Full(s) && i < |s| ensures s[i].key != Some(q) {
        assert Stores(s, i, q) ==> Unbroken(s, q, i);
      }
    }
  }

  /** A removal keeps keys distinct and takes its key out of the map, if it finds it; so all of the above
      holds after any number of removals. */
  lemma {:induction false} RemovalKeepsDistinct(t: Table, k: Key)
    requires 0 < |t.slots| && Distinct(t.slots) && HashesRight(t.slots) && Probe(t.slots, k, 0) != Loops
    ensures var r := Removed(t, k).slots;
      && Distinct(r) && HashesRight(r)
      && MapOf(r) == if Lookup(t.slots, k).Found? then MapOf(t.slots) - {k} else MapOf(t.slots)
  {
    ProbeIff(t.slots, k, Probe(t.slots, k, 0));
    if Probe(t.slots, k, 0).Hit? {
      var f := Probe(t.slots, k, 0).at;
      forall i: nat, q: Key ensures Stores(Freed(t.slots, f), i, q) <==> Stores(t.slots, i, q) && i != f {}
      MapWithout(t.slots, k, f);
    }
  }

  /** A removal leaves the whole table as it was exactly when its key is not found. */
  lemma RemovedIff(t: Table, k: Key)
    requires 0 < |t.slots| && Probe(t.slots, k, 0) != Loops
    ensures Removed(t, k) == t <==> Lookup(t.slots, k) == NotFound
  {
    ProbeIff(t.slots, k, Probe(t.slots, k, 0));
    if Probe(t.slots, k, 0).Hit? {
      var i := Probe(t.slots, k, 0).at;
      assert Removed(t, k).slots[i].key.None? && t.slots[i].key.Some?;
    }
  }

  // ---- lists of insertions and removals ----

  datatype Call = Put(key: Key, value: Text) | Drop(key: Key)

  /** The table after a call; `None` when it does not return. */
  function Called(t: Table, c: Call): (r: Option<Table>)
    requires 0 < |t.slots|
    ensures r.Some? ==> 0 < |r.value.slots|
  {
    match c
    case Put(k, v) => Inserted(t, k, v)
    case Drop(k) => if Probe(t.slots, k, 0) == Loops then None else Some(Removed(t, k))
  }

  function CallAll(t: Table, cs: seq<Call>): Option<Table>
    requires 0 < |t.slots|
    decreases cs
  {
    if cs == [] then Some(t)
    else
      match Called(t, cs[0])
      case None => None
      case Some(t') => CallAll(t', cs[1..])
  }

  /** The call is no insertion of a key that is stored and cannot be found, unless it rehashes first. */
  ghost predicate Safe(t: Table, c: Call) {
    c.Put? ==> t.count >= |t.slots| || Findable(t.slots, c.key)
  }

  ghost predicate AllSafe(t: Table, cs: seq<Call>)
    requires 0 < |t.slots|
    decreases cs
  {
    cs == [] || (Safe(t, cs[0]) && (Called(t, cs[0]).Some? ==> AllSafe(Called(t, cs[0]).value, cs[1..])))
  }

  /** No key is stored twice, before, between and after the calls. */
  ghost predicate AlwaysDistinct(t: Table, cs: seq<Call>)
    requires 0 < |t.slots|
    decreases cs
  {
    && Distinct(t.slots)
    && (cs != [] && Called(t, cs[0]).Some? ==> AlwaysDistinct(Called(t, cs[0]).value, cs[1..]))
  }

  /** What the calls make of a map: a removal takes out the keys it finds. */
  ghost function MapAfterCalls(t: Table, cs: seq<Call>, m: map<Key, Text>): map<Key, Text>
    requires 0 < |t.slots|
    decreases cs
  {
    if cs == [] || Called(t, cs[0]).None? then m
    else
      var m' := match cs[0]
        case Put(k, v) => m[k := v]
        case Drop(k) => if Lookup(t.slots, k).Found? then m - {k} else m;
      MapAfterCalls(Called(t, cs[0]).value, cs[1..], m')
  }

  lemma {:induction false} CallKeeps(t: Table, c: Call)
    requires 0 < |t.slots| && Distinct(t.slots) && HashesRight(t.slots) && Called(t, c).Some?
    ensures HashesRight(Called(t, c).value.slots)
    ensures Distinct(Called(t, c).value.slots) <==> Safe(t, c)
    ensures Safe(t, c) ==> MapOf(Called(t, c).value.slots) == MapAfterCalls(t, [c], MapOf(t.slots))
  {
    match c
    case Put(k, v) => InsertDistinctIff(t, k, v);
    case Drop(k) => RemovalKeepsDistinct(t, k);
  }

  /** Whatever insertions and removals are made, a table without repeated keys and with right hashes stays so
      if and only if no call inserts a key that it stores and cannot find, rehashing aside; it then stands for
      the map the calls make, each removal taking effect if it finds its key. */
  lemma {:induction false} CallsTheorem(t: Table, cs: seq<Call>)
    requires 0 < |t.slots| && Distinct(t.slots) && HashesRight(t.slots) && CallAll(t, cs).Some?
    ensures AlwaysDistinct(t, cs) <==> AllSafe(t, cs)
    ensures AllSafe(t, cs) ==>
              var r := CallAll(t, cs).value.slots;
              Distinct(r) && HashesRight(r) && MapOf(r) == MapAfterCalls(t, cs, MapOf(t.slots))
    decreases cs
  {
    if cs != [] {
      CallKeeps(t, cs[0]);
      if Safe(t, cs[0]) {
        CallsTheorem(Called(t, cs[0]).value, cs[1..]);
      }
    }
  }

  /** None of the calls makes the table rehash. */
  ghost predicate NoneRehashes(t: Table, cs: seq<Call>)
    requires 0 < |t.slots|
    decreases cs
  {
    cs == [] ||
    (&& (cs[0].Put? ==> t.count < |t.slots|)
     && (Called(t, cs[0]).Some? ==> NoneRehashes(Called(t, cs[0]).value, cs[1..])))
  }

  lemma {:induction false} CallCounts(t: Table, c: Call)
    requires 0 < |t.slots| && t.count == Used(t.slots) && Called(t, c).Some?
    requires c.Put? ==> t.count < |t.slots|
    ensures Called(t, c).value.count == Used(Called(t, c).value.slots)
  {
    ProbeIff(t.slots, c.key, Probe(t.slots, c.key, 0));
    match Probe(t.slots, c.key, 0)
    case Hit(i) =>
      UsedAfterUpdate(t.slots, i, if c.Put? then t.slots[i].(value := c.value) else t.slots[i].(key := None));
    case Miss(i) =>
      if c.Put? {
        UsedAfterUpdate(t.slots, i, Slot(Some(c.key), c.value, Djb2(c.key)));
      }
    case Loops =>
  }

  /** Over any list of insertions and removals without a rehash, `Count` stays the number of slots in use. */
  lemma {:induction false} CallsCount(t: Table, cs: seq<Call>)
    requires 0 < |t.slots| && t.count == Used(t.slots) && CallAll(t, cs).Some? && NoneRehashes(t, cs)
    ensures CallAll(t, cs).value.count == Used(CallAll(t, cs).value.slots)
    decreases cs
  {
    if cs != [] {
      CallCounts(t, cs[0]);
      CallsCount(Called(t, cs[0]).value, cs[1..]);
    }
  }

  // ---- one removal from a table that probing can rely on ----

  /** The run of key `q`, stored in slot `j`, passes slot `f`. */
  predicate Crosses(s: seq<Slot>, q: Key, j: nat, f: nat)
    requires j < |s| && f < |s|
  {
    OnRun(Home(q, |s|), f, j, |s|)
  }

  /** After freeing the slot of `k`, another stored key is found exactly when its run does not
      cross the freed slot; when it does, the probe stops early, at the freed slot. */
  lemma {:induction false} FoundAfterRemoval(s: seq<Slot>, k: Key, f: nat, q: Key, j: nat)
    requires Inv(s) && Stores(s, f, k) && Stores(s, j, q) && q != k
    ensures Probe(Freed(s, f), q, 0) == if Crosses(s, q, j, f) then Miss(f) else Hit(j)
  {
    var t, h := Freed(s, f), Home(q, |s|);
    assert j != f;
    if Crosses(s, q, j, f) {
      PassedBefore(s, q, j, f);
      forall i | 0 <= i < |t| && Dist(h, i, |t|) < Dist(h, f, |t|) ensures t[i].key.Some? && t[i].key != Some(q) {
        assert i != f && t[i] == s[i];
      }
      ProbeIff(t, q, Miss(f));
    } else {
      PassedBefore(s, q, j, j);
      forall i | 0 <= i < |t| && Dist(h, i, |t|) < Dist(h, j, |t|) ensures t[i].key.Some? && t[i].key != Some(q) {
        assert i != f && t[i] == s[i];
      }
      ProbeIff(t, q, Hit(j));
    }
  }

  lemma PassedBefore(s: seq<Slot>, q: Key, j: nat, f: nat)
    requires Inv(s) && Stores(s, j, q) && f < |s|
    requires Dist(Home(q, |s|), f, |s|) <= Dist(Home(q, |s|), j, |s|)
    ensures Passed(s, Home(q, |s|), Some(q), Dist(Home(q, |s|), f, |s|))
  {
    var h := Home(q, |s|);
    forall i | 0 <= i < |s| && Dist(h, i, |s|) < Dist(h, f, |s|) ensures s[i].key.Some? && s[i].key != Some(q) {
      assert OnRun(h, i, j, |s|);
      assert Stores(s, i, q) ==> i == j;
    }
  }

  /** All lookups after a removal, in terms of the map before it. */
  lemma LookupAfterRemoval(s: seq<Slot>, k: Key, f: nat, q: Key)
    requires Inv(s) && Stores(s, f, k)
    ensures var found := q != k && exists j: nat :: Stores(s, j, q) && !Crosses(s, q, j, f);
      Lookup(Freed(s, f), q) == if found then Found(MapOf(s)[q]) else NotFound
  {
    var t := Freed(s, f);
    if j: nat :| Stores(s, j, q) && q != k {
      FoundAfterRemoval(s, k, f, q, j);
      assert forall j': nat :: Stores(s, j', q) ==> j' == j;
    } else {
      NotAnswered(s, k, f, q);
      assert q != k ==> forall j: nat :: !Stores(s, j, q);
    }
  }

  /** With a slot just freed a probe always stops; a key that is not stored any more is not found. */
  lemma NotAnswered(s: seq<Slot>, k: Key, f: nat, q: Key)
    requires Distinct(s) && Stores(s, f, k) && (q == k || forall j: nat :: !Stores(s, j, q))
    ensures Lookup(Freed(s, f), q) == NotFound
  {
    var t := Freed(s, f);
    assert t[f].key.None?;
    LoopsIffFullWithout(t, q);
    ProbeIff(t, q, Probe(t, q, 0));
    if Probe(t, q, 0).Hit? {
      StoredAfterRemoval(s, k, f, q, Probe(t, q, 0).at);
    }
  }

  /** No remaining run crosses the freed slot. */
  ghost predicate NoneCrosses(s: seq<Slot>, k: Key, f: nat)
    requires f < |s|
  {
    forall j: nat, q: Key :: Stores(s, j, q) && q != k ==> !Crosses(s, q, j, f)
  }

  /** The invariant survives a removal exactly when no remaining run crosses the freed slot. */
  lemma {:induction false} InvariantAfterRemoval(s: seq<Slot>, k: Key, f: nat)
    requires Inv(s) && Stores(s, f, k)
    ensures Inv(Freed(s, f)) <==> NoneCrosses(s, k, f)
    ensures Distinct(Freed(s, f)) && MapOf(Freed(s, f)) == MapOf(s) - {k}
  {
    var t := Freed(s, f);
    forall i: nat, q: Key ensures Stores(t, i, q) <==> Stores(s, i, q) && i != f {}
    if Inv(t) {
      forall j: nat, q: Key | Stores(s, j, q) && q != k ensures !Crosses(s, q, j, f) {
        assert Stores(t, j, q) && t[f].key.None?;
        assert !OnRun(Home(t[j].key.value, |t|), f, j, |t|);
      }
    }
    if NoneCrosses(s, k, f) {
      RunsStayUnbroken(s, k, f);
    }
    MapWithout(s, k, f);
  }

  lemma RunsStayUnbroken(s: seq<Slot>, k: Key, f: nat)
    requires Inv(s) && Stores(s, f, k) && NoneCrosses(s, k, f)
    ensures RunsUnbroken(Freed(s, f))
  {
    var t := Freed(s, f);
    forall i, j | 0 <= i < |t| && 0 <= j < |t| && t[j].key.Some? && OnRun(Home(t[j].key.value, |t|), i, j, |t|)
      ensures t[i].key.Some?
    {
      var q := t[j].key.value;
      assert Stores(s, j, q) && j != f;
      assert q != k;
      assert !Crosses(s, q, j, f);
      assert OnRun(Home(s[j].key.value, |s|), i, j, |s|);
    }
  }

  lemma MapWithout(s: seq<Slot>, k: Key, f: nat)
    requires Distinct(s) && Stores(s, f, k) && Distinct(Freed(s, f))
    ensures MapOf(Freed(s, f)) == MapOf(s) - {k}
  {
    var t := Freed(s, f);
    forall q: Key | q in MapOf(t) ensures q in MapOf(s) && q != k && MapOf(t)[q] == MapOf(s)[q] {
      var j: nat :| Stores(t, j, q);
      assert Stores(s, j, q) && j != f;
    }
    forall q: Key | q in MapOf(s) && q != k ensures q in MapOf(t) {
      var j: nat :| Stores(s, j, q);
      assert Stores(t, j, q);
    }
  }

  /** After a removal the next insertion, if it does not rehash, stores a key twice exactly when the key is
      stored and its run crosses the freed slot. */
  ghost predicate StoresTwice(t: Table, k: Key, f: nat, q: Key)
    requires f < |t.slots|
  {
    && Decremented(t.count) < |t.slots|
    && exists j: nat :: Stores(t.slots, j, q) && q != k && Crosses(t.slots, q, j, f)
  }

  lemma InsertAfterRemoval(t: Table, k: Key, f: nat, q: Key, v: Text)
    requires Inv(t.slots) && Stores(t.slots, f, k)
    ensures Probe(t.slots, k, 0) == Hit(f) && Inserted(Removed(t, k), q, v).Some?
    ensures var r := Inserted(Removed(t, k), q, v).value.slots;
      && (Distinct(r) <==> !StoresTwice(t, k, f, q))
      && (!StoresTwice(t, k, f, q) ==> MapOf(r) == (MapOf(t.slots) - {k})[q := v])
      && (StoresTwice(t, k, f, q) ==>
            Stores(r, f, q) && r[f].value == v
            && exists j: nat :: j != f && Stores(r, j, q) && r[j] == t.slots[j])
  {
    HitIffStored(t.slots, k, f);
    InvariantAfterRemoval(t.slots, k, f);
    RemovedInserts(t, k, f, q, v);
    InsertDistinctIff(Removed(t, k), q, v);
    FindableAfterRemoval(t.slots, k, f, q);
    if StoresTwice(t, k, f, q) {
      SecondCopy(t, k, f, q, v);
    }
  }

  lemma SecondCopy(t: Table, k: Key, f: nat, q: Key, v: Text)
    requires Inv(t.slots) && Stores(t.slots, f, k) && Probe(t.slots, k, 0) == Hit(f) && StoresTwice(t, k, f, q)
    requires Inserted(Removed(t, k), q, v).Some?
    ensures var r := Inserted(Removed(t, k), q, v).value.slots;
      Stores(r, f, q) && r[f].value == v && exists j: nat :: j != f && Stores(r, j, q) && r[j] == t.slots[j]
  {
    var j: nat :| Stores(t.slots, j, q) && q != k && Crosses(t.slots, q, j, f);
    FoundAfterRemoval(t.slots, k, f, q, j);
    var r := Inserted(Removed(t, k), q, v).value.slots;
    assert j != f && Stores(r, j, q) && r[j] == t.slots[j];
  }

  /** With a slot just freed an insertion always returns. */
  lemma RemovedInserts(t: Table, k: Key, f: nat, q: Key, v: Text)
    requires 0 < |t.slots| && Distinct(t.slots) && HashesRight(t.slots) && Probe(t.slots, k, 0) == Hit(f)
    requires f < |t.slots| && Distinct(Freed(t.slots, f))
    ensures Inserted(Removed(t, k), q, v).Some?
  {
    var s := Freed(t.slots, f);
    if Decremented(t.count) >= |s| {
      DoublingRepairs(s);
      FullIff(Doubled(s));
      LoopsIffFullWithout(Doubled(s), q);
    } else {
      assert s[f].key.None?;
      LoopsIffFullWithout(s, q);
    }
  }

  lemma StoredAfterRemoval(s: seq<Slot>, k: Key, f: nat, q: Key, j: nat)
    requires Distinct(s) && Stores(s, f, k)
    ensures Stores(Freed(s, f), j, q) <==> Stores(s, j, q) && q != k
  {
    assert Stores(Freed(s, f), j, q) ==> Stores(s, j, q) && j != f;
  }

  lemma UnbrokenAfterRemoval(s: seq<Slot>, k: Key, f: nat, q: Key, j: nat)
    requires Inv(s) && Stores(s, f, k) && Distinct(Freed(s, f)) && Stores(s, j, q) && q != k
    ensures Unbroken(Freed(s, f), q, j) <==> !Crosses(s, q, j, f)
  {
    StoredAfterRemoval(s, k, f, q, j);
    FoundAfterRemoval(s, k, f, q, j);
    FoundIff(Freed(s, f), q, j);
  }

  lemma FindableAfterRemoval(s: seq<Slot>, k: Key, f: nat, q: Key)
    requires Inv(s) && Stores(s, f, k) && Distinct(Freed(s, f))
    ensures Findable(Freed(s, f), q) <==> !exists j: nat :: Stores(s, j, q) && q != k && Crosses(s, q, j, f)
  {
    var t := Freed(s, f);
    forall j: nat
      ensures Stores(t, j, q) <==> Stores(s, j, q) && q != k
      ensures Stores(t, j, q) ==> (Unbroken(t, q, j) <==> !Crosses(s, q, j, f))
    {
      StoredAfterRemoval(s, k, f, q, j);
      if Stores(t, j, q) {
        UnbrokenAfterRemoval(s, k, f, q, j);
      }
    }
  }

  /** The decremented counter makes the next insertion rehash exactly when `Count` was zero. */
  lemma RehashAfterRemovalIff(t: Table)
    requires t.count <= |t.slots| < U64 && 0 < |t.slots|
    ensures Decremented(t.count) >= |t.slots| <==> t.count == 0
  {
  }

  /** `Count` is zero after an insertion that rehashes a table for a key it holds. */
  lemma {:induction false} RehashLeavesZero(c: nat, t: Table, k: Key, v: Text)
    requires History(c, t) && t.count >= |t.slots| && k in MapOf(t.slots)
    ensures Inserted(t, k, v).Some? && Inserted(t, k, v).value.count == 0
  {
    GrownHistory(c, t);
    InsertNoGrowth(Grown(t), k, v);
    InsertedGrown(t, k, v);
  }

  /** `Count` and the slots in use after a removal: `Count` stays at most the slots in use
      exactly when it was not zero. */
  lemma {:induction false} CountAfterRemoval(t: Table, k: Key)
    requires 0 < |t.slots| < U64 && t.count <= Used(t.slots) && Probe(t.slots, k, 0).Hit?
    ensures var r := Removed(t, k);
      && Used(r.slots) == Used(t.slots) - 1 && (r.count <= Used(r.slots) <==> t.count != 0)
      && r.count == if t.count == 0 then 18446744073709551615 else t.count - 1
  {
    ProbeIff(t.slots, k, Probe(t.slots, k, 0));
    var i := Probe(t.slots, k, 0).at;
    UsedAfterUpdate(t.slots, i, t.slots[i].(key := None));
  }
}
