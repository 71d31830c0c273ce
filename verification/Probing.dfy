/** Linear probing over a fixed array of slots, as plain functions of the slots. */
module Probing {
  import opened Basics

  const U64: nat := 0x1_0000_0000_0000_0000

  /** One item of the table. An item whose `key` is `None` is free, whatever its other fields hold. */
  datatype Slot = Slot(key: Option<Key>, value: Text, hash: nat)

  const FREE_SLOT: Slot := Slot(None, [], 0)

  // ---- djb2 ----

  /** djb2 in 64-bit arithmetic: every step wraps. */
  function Djb2(key: Text): nat {
    if key == [] then 5381 else (Djb2(key[..|key| - 1]) * 33 + key[|key| - 1]) % U64
  }

  /** djb2 without wrap-around. */
  function Djb2Wide(key: Text): nat {
    if key == [] then 5381 else Djb2Wide(key[..|key| - 1]) * 33 + key[|key| - 1]
  }

  lemma AddMultiple(y: nat, k: nat)
    ensures (y + k * U64) % U64 == y % U64
  {
    var d, r := y / U64, y % U64;
    assert y + k * U64 == (d + k) * U64 + r;
  }

  lemma WrapInside(a: nat, b: nat)
    ensures ((a % U64) * 33 + b) % U64 == (a * 33 + b) % U64
  {
    var q, r := a / U64, a % U64;
    AddMultiple(r * 33 + b, 33 * q);
    assert a * 33 + b == (r * 33 + b) + (33 * q) * U64;
  }

  /** Wrapping at every step only costs the wrap at the end. */
  lemma {:induction false} Djb2WrapsOnce(key: Text)
    ensures Djb2(key) == Djb2Wide(key) % U64
  {
    if key != [] {
      var init := key[..|key| - 1];
      Djb2WrapsOnce(init);
      WrapInside(Djb2Wide(init), key[|key| - 1]);
    }
  }

  function Power33(n: nat): nat {
    if n == 0 then 1 else 33 * Power33(n - 1)
  }

  /** The bytes as the digits of a number to the base 33, the last byte last. */
  function Base33(key: Text): nat {
    if key == [] then 0 else Base33(key[..|key| - 1]) * 33 + key[|key| - 1]
  }

  /** djb2 is 5381 moved up by the length of the key, plus the bytes, modulo two to the 64. */
  lemma {:induction false} Djb2Is(key: Text)
    ensures Djb2(key) == (5381 * Power33(|key|) + Base33(key)) % 18446744073709551616
  {
    Djb2WrapsOnce(key);
    WideIs(key);
  }

  lemma {:induction false} WideIs(key: Text)
    ensures Djb2Wide(key) == 5381 * Power33(|key|) + Base33(key)
  {
    if key != [] {
      WideIs(key[..|key| - 1]);
      assert 33 * (5381 * Power33(|key| - 1)) == 5381 * Power33(|key|);
    }
  }

  // ---- cyclic indices ----

  /** How many steps lead from `a` to `b`. */
  function Dist(a: nat, b: nat, cap: nat): (d: nat)
    requires a < cap && b < cap
    ensures d < cap && Wrapped(a, d, cap) == b
  {
    if a <= b then b - a else b - a + cap
  }

  /** Slot `i` lies on the way from `home` to `j`, before `j`. */
  predicate OnRun(home: nat, i: nat, j: nat, cap: nat)
    requires home < cap && i < cap && j < cap
  {
    Dist(home, i, cap) < Dist(home, j, cap)
  }

  function Home(k: Key, cap: nat): (h: nat)
    requires 0 < cap
    ensures h < cap
  {
    Djb2(k) % cap
  }

  // ---- probing ----

  datatype Outcome = Hit(at: nat) | Miss(at: nat) | Loops

  /** The slots from `start` on, less than `d` steps away, are all in use by keys other than `k`. */
  ghost predicate Passed(s: seq<Slot>, start: nat, k: Option<Key>, d: nat)
    requires start < |s|
  {
    d <= |s| && forall i :: 0 <= i < |s| && Dist(start, i, |s|) < d ==> s[i].key.Some? && s[i].key != k
  }

  /** The probe loop of `VHashTable_Get`, having made `d` steps. `Loops` means it never stops:
      after a full turn the index is where it began. */
  function Probe(s: seq<Slot>, k: Key, d: nat): Outcome
    requires 0 < |s| && d <= |s|
    decreases |s| - d
  {
    if d == |s| then Loops
    else
      var i := Wrapped(Home(k, |s|), d, |s|);
      if s[i].key == None then Miss(i)
      else if s[i].key == Some(k) then Hit(i)
      else Probe(s, k, d + 1)
  }

  /** What an outcome says about the slots. */
  ghost predicate Explains(s: seq<Slot>, k: Key, o: Outcome)
    requires 0 < |s|
  {
    var h := Home(k, |s|);
    match o
    case Hit(j) => j < |s| && s[j].key == Some(k) && Passed(s, h, Some(k), Dist(h, j, |s|))
    case Miss(j) => j < |s| && s[j].key == None && Passed(s, h, Some(k), Dist(h, j, |s|))
    case Loops => Passed(s, h, Some(k), |s|)
  }

  lemma PassedOneMore(s: seq<Slot>, start: nat, k: Option<Key>, d: nat)
    requires start < |s| && d < |s| && Passed(s, start, k, d)
    requires var i := Wrapped(start, d, |s|); s[i].key.Some? && s[i].key != k
    ensures Passed(s, start, k, d + 1)
  {
    forall i | 0 <= i < |s| && Dist(start, i, |s|) < d + 1
      ensures s[i].key.Some? && s[i].key != k
    {
      if Dist(start, i, |s|) == d {
        assert i == Wrapped(start, d, |s|);
      }
    }
  }

  lemma {:induction false} ProbeExplained(s: seq<Slot>, k: Key, d: nat)
    requires 0 < |s| && Passed(s, Home(k, |s|), Some(k), d)
    ensures Explains(s, k, Probe(s, k, d))
    decreases |s| - d
  {
    if d < |s| {
      var i := Wrapped(Home(k, |s|), d, |s|);
      if s[i].key.Some? && s[i].key != Some(k) {
        PassedOneMore(s, Home(k, |s|), Some(k), d);
        ProbeExplained(s, k, d + 1);
      } else {
        assert Dist(Home(k, |s|), i, |s|) == d;
      }
    }
  }

  lemma OutcomeUnique(s: seq<Slot>, k: Key, o: Outcome, o': Outcome)
    requires 0 < |s| && Explains(s, k, o) && Explains(s, k, o')
    ensures o == o'
  {
    if !o.Loops? && !o'.Loops? {
      var h := Home(k, |s|);
      assert Dist(h, o.at, |s|) == Dist(h, o'.at, |s|);
      assert o.at == Wrapped(h, Dist(h, o.at, |s|), |s|) == o'.at;
    }
  }

  /** Probing is exactly its explanation. */
  lemma ProbeIff(s: seq<Slot>, k: Key, o: Outcome)
    requires 0 < |s|
    ensures Probe(s, k, 0) == o <==> Explains(s, k, o)
  {
    ProbeExplained(s, k, 0);
    if Explains(s, k, o) {
      OutcomeUnique(s, k, o, Probe(s, k, 0));
    }
  }

  /** The loop never stops exactly when the table is full of other keys. */
  lemma LoopsIffFullWithout(s: seq<Slot>, k: Key)
    requires 0 < |s|
    ensures Probe(s, k, 0) == Loops <==> forall i :: 0 <= i < |s| ==> s[i].key.Some? && s[i].key != Some(k)
  {
    ProbeIff(s, k, Loops);
    if Probe(s, k, 0) == Loops {
      forall i | 0 <= i < |s| ensures s[i].key.Some? && s[i].key != Some(k) {
        assert Dist(Home(k, |s|), i, |s|) < |s|;
      }
    }
  }

  // ---- the invariant ----

  ghost predicate HashesRight(s: seq<Slot>) {
    forall i :: 0 <= i < |s| && s[i].key.Some? ==> s[i].hash == Djb2(s[i].key.value)
  }

  predicate Stores(s: seq<Slot>, i: nat, k: Key) {
    i < |s| && s[i].key == Some(k)
  }

  ghost predicate Distinct(s: seq<Slot>) {
    forall i: nat, j: nat, k: Key :: Stores(s, i, k) && Stores(s, j, k) ==> i == j
  }

  /** No free slot between the home of a stored key and its own slot. */
  ghost predicate RunsUnbroken(s: seq<Slot>) {
    forall i, j ::
      (0 <= i < |s| && 0 <= j < |s| && s[j].key.Some? && OnRun(Home(s[j].key.value, |s|), i, j, |s|))
      ==> s[i].key.Some?
  }

  ghost predicate Inv(s: seq<Slot>) {
    0 < |s| && HashesRight(s) && Distinct(s) && RunsUnbroken(s)
  }

  ghost function StoredKeys(s: seq<Slot>): (ks: set<Key>)
    ensures forall k: Key :: k in ks <==> exists i: nat :: Stores(s, i, k)
  {
    var ks := set i | 0 <= i < |s| && s[i].key.Some? :: s[i].key.value;
    assert forall i: nat, k: Key :: Stores(s, i, k) ==> s[i].key.value in ks;
    assert forall k: Key :: k in ks ==> exists i: nat :: Stores(s, i, k) by {
      forall k: Key | k in ks ensures exists i: nat :: Stores(s, i, k) {
        var i :| 0 <= i < |s| && s[i].key == Some(k);
        assert Stores(s, i, k);
      }
    }
    ks
  }

  /** The finite map a slot array stands for. */
  ghost function MapOf(s: seq<Slot>): (m: map<Key, Text>)
    requires Distinct(s)
    ensures forall i: nat, k: Key :: Stores(s, i, k) ==> k in m && m[k] == s[i].value
    ensures forall k: Key :: k in m ==> exists i: nat :: Stores(s, i, k)
  {
    map k: Key | k in StoredKeys(s) :: var i: nat :| Stores(s, i, k); s[i].value
  }

  /** With the invariant a probe hits precisely the stored keys, at the one slot that stores them. */
  lemma {:induction false} HitIffStored(s: seq<Slot>, k: Key, j: nat)
    requires Inv(s)
    ensures Probe(s, k, 0) == Hit(j) <==> Stores(s, j, k)
  {
    ProbeIff(s, k, Hit(j));
    if Stores(s, j, k) {
      forall i | 0 <= i < |s| && Dist(Home(k, |s|), i, |s|) < Dist(Home(k, |s|), j, |s|)
        ensures s[i].key.Some? && s[i].key != Some(k)
      {
        assert OnRun(Home(k, |s|), i, j, |s|);
        assert Stores(s, i, k) ==> i == j;
      }
    }
  }

  /** What a caller of `VHashTable_Get` gets: a value, the null pointer, or nothing ever, as the probe loop
      does not stop. */
  datatype Answer = Found(value: Text) | NotFound | NoAnswer

  /** `VHashTable_Get` as a function. */
  function Lookup(s: seq<Slot>, k: Key): Answer
    requires 0 < |s|
  {
    match Probe(s, k, 0)
    case Hit(i) => ProbeInRange(s, k, 0); Found(s[i].value)
    case Miss(_) => NotFound
    case Loops => NoAnswer
  }

  lemma {:induction false} ProbeInRange(s: seq<Slot>, k: Key, d: nat)
    requires 0 < |s| && d <= |s|
    ensures !Probe(s, k, d).Loops? ==> Probe(s, k, d).at < |s|
    decreases |s| - d
  {
    if d < |s| {
      ProbeInRange(s, k, d + 1);
    }
  }

  ghost predicate Full(s: seq<Slot>) {
    forall i :: 0 <= i < |s| ==> s[i].key.Some?
  }

  /** Under the invariant lookup is map lookup, but for a missing key in a full table there is no answer. */
  lemma LookupIsMap(s: seq<Slot>, k: Key)
    requires Inv(s)
    ensures Lookup(s, k) ==
            if k in MapOf(s) then Found(MapOf(s)[k]) else if Full(s) then NoAnswer else NotFound
  {
    LoopsIffFullWithout(s, k);
    if k in MapOf(s) {
      var j: nat :| Stores(s, j, k);
      HitIffStored(s, k, j);
    } else {
      assert forall j: nat :: !Stores(s, j, k);
      if Probe(s, k, 0).Hit? {
        HitIffStored(s, k, Probe(s, k, 0).at);
      }
    }
  }

  // ---- storing ----

  /** Storing `v` under `k` in an array that is not full of other keys. */
  function Store(s: seq<Slot>, k: Key, v: Text): (t: seq<Slot>)
    requires 0 < |s| && Probe(s, k, 0) != Loops
    ensures |t| == |s|
  {
    ProbeInRange(s, k, 0);
    match Probe(s, k, 0)
    case Hit(i) => s[i := s[i].(value := v)]
    case Miss(i) => s[i := Slot(Some(k), v, Djb2(k))]
  }

  /** Writing an item over a free slot, or over its own key, updates the map at that key. */
  lemma MapAfterUpdate(s: seq<Slot>, i: nat, item: Slot)
    requires Distinct(s) && i < |s| && item.key.Some?
    requires s[i].key == None || s[i].key == item.key
    requires forall j: nat :: Stores(s, j, item.key.value) ==> j == i
    ensures Distinct(s[i := item])
    ensures MapOf(s[i := item]) == MapOf(s)[item.key.value := item.value]
  {
    var t := s[i := item];
    var k0 := item.key.value;
    forall a: nat, k: Key | Stores(t, a, k) ensures (a == i && k == k0) || (Stores(s, a, k) && k != k0) {
      assert a != i ==> Stores(s, a, k);
    }
    assert Distinct(t);
    var m, m' := MapOf(s)[k0 := item.value], MapOf(t);
    assert Stores(t, i, k0);
    forall k | k in m && k != k0 ensures k in m' && m'[k] == m[k] {
      var j: nat :| Stores(s, j, k);
      assert Stores(t, j, k);
    }
    forall k | k in m' ensures k in m {
      var j: nat :| Stores(t, j, k);
    }
  }

  /** Filling the free slot at the end of a new key's run keeps the invariant. */
  lemma FillFree(s: seq<Slot>, i: nat, item: Slot)
    requires Inv(s) && i < |s| && s[i].key == None
    requires item.key.Some? && item.hash == Djb2(item.key.value)
    requires forall j: nat :: !Stores(s, j, item.key.value)
    requires Passed(s, Home(item.key.value, |s|), None, Dist(Home(item.key.value, |s|), i, |s|))
    ensures Inv(s[i := item])
    ensures MapOf(s[i := item]) == MapOf(s)[item.key.value := item.value]
  {
    var t := s[i := item];
    forall a, b | 0 <= a < |t| && 0 <= b < |t| && t[b].key.Some?
      && OnRun(Home(t[b].key.value, |t|), a, b, |t|)
      ensures t[a].key.Some?
    {
      if b != i && a != i {
        assert OnRun(Home(s[b].key.value, |s|), a, b, |s|);
      }
    }
    MapAfterUpdate(s, i, item);
  }

  /** Storing refines map update and keeps the invariant. */
  lemma {:induction false} StoreRefines(s: seq<Slot>, k: Key, v: Text)
    requires Inv(s) && Probe(s, k, 0) != Loops
    ensures Inv(Store(s, k, v))
    ensures MapOf(Store(s, k, v)) == MapOf(s)[k := v]
  {
    ProbeIff(s, k, Probe(s, k, 0));
    match Probe(s, k, 0)
    case Hit(i) => ReplaceValue(s, i, k, v);
    case Miss(i) =>
      forall j: nat ensures !Stores(s, j, k) {
        HitIffStored(s, k, j);
      }
      FillFree(s, i, Slot(Some(k), v, Djb2(k)));
  }

  lemma ReplaceValue(s: seq<Slot>, i: nat, k: Key, v: Text)
    requires Inv(s) && Stores(s, i, k)
    ensures var t := s[i := s[i].(value := v)]; Inv(t) && MapOf(t) == MapOf(s)[k := v]
  {
    var t := s[i := s[i].(value := v)];
    assert forall j :: 0 <= j < |s| ==> t[j].key == s[j].key && t[j].hash == s[j].hash;
    assert RunsUnbroken(t);
    MapAfterUpdate(s, i, t[i]);
  }
}
