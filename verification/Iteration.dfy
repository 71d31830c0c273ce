/** The table iterator: `VHashTable_Iterator` and repeated `VHashTable_Next` on an unchanged table. */
module Iteration {
  import opened Basics
  import opened Probing
  import opened TableSpec
  import opened Removal

  /** The slots in use from index `i` on, in slot order. */
  function InUseFrom(s: seq<Slot>, i: nat): seq<nat>
    decreases |s| - i
  {
    if i >= |s| then []
    else if s[i].key.Some? then [i] + InUseFrom(s, i + 1)
    else InUseFrom(s, i + 1)
  }

  lemma {:induction false} InUseFromExact(s: seq<Slot>, i: nat)
    ensures forall x :: x in InUseFrom(s, i) <==> i <= x < |s| && s[x].key.Some?
    ensures forall a :: 0 <= a < |InUseFrom(s, i)| ==> i <= InUseFrom(s, i)[a] < |s| && s[InUseFrom(s, i)[a]].key.Some?
    ensures forall a, b :: 0 <= a < b < |InUseFrom(s, i)| ==> InUseFrom(s, i)[a] < InUseFrom(s, i)[b]
    decreases |s| - i
  {
    if i < |s| {
      InUseFromExact(s, i + 1);
      var rest := InUseFrom(s, i + 1);
      if s[i].key.Some? {
        var all := [i] + rest;
        assert forall a :: 1 <= a < |all| ==> all[a] == rest[a - 1];
      }
    }
  }

  lemma {:induction false} InUseFromCount(s: seq<Slot>, i: nat)
    requires i <= |s|
    ensures |InUseFrom(s, i)| + Used(s[..i]) == Used(s)
    decreases |s| - i
  {
    if i == |s| {
      assert s[..i] == s;
    } else {
      InUseFromCount(s, i + 1);
      assert s[..i + 1][..i] == s[..i];
    }
  }

  /** An iterator: the next slot to look at and how many items it has given. */
  datatype Position = Position(cursor: nat, given: nat)

  /** One call either gives nothing, for good, or scans for a slot in use; it reads past the array
      when there is none left. */
  predicate Exhausted(t: Table, p: Position) {
    p.cursor >= |t.slots| || p.given == t.count
  }

  predicate NextStaysInside(t: Table, p: Position) {
    Exhausted(t, p) || InUseFrom(t.slots, p.cursor) != []
  }

  function Next(t: Table, p: Position): (Option<nat>, Position)
    requires NextStaysInside(t, p)
  {
    if Exhausted(t, p) then (None, p)
    else
      var i := InUseFrom(t.slots, p.cursor)[0];
      (Some(i), Position(i + 1, p.given + 1))
  }

  datatype Walk = Walk(given: seq<Option<nat>>, at: Position)

  /** The results of `n` calls from a fresh iterator; `None` when one of them leaves the array. */
  function NextTimes(t: Table, n: nat): Option<Walk> {
    if n == 0 then Some(Walk([], Position(0, 0)))
    else
      match NextTimes(t, n - 1)
      case None => None
      case Some(w) =>
        if NextStaysInside(t, w.at) then
          var r := Next(t, w.at);
          Some(Walk(w.given + [r.0], r.1))
        else None
  }

  lemma {:induction false} RestInUse(s: seq<Slot>, i: nat)
    requires InUseFrom(s, i) != []
    ensures i <= InUseFrom(s, i)[0] < |s|
    ensures InUseFrom(s, i)[1..] == InUseFrom(s, InUseFrom(s, i)[0] + 1)
    decreases |s| - i
  {
    if i < |s| && s[i].key.None? {
      RestInUse(s, i + 1);
    }
  }

  /** The first calls give the slots in use in order. */
  lemma {:induction false} FirstCalls(t: Table, n: nat)
    requires n <= t.count && n <= Used(t.slots)
    ensures NextTimes(t, n).Some?
    ensures var all, w := InUseFrom(t.slots, 0), NextTimes(t, n).value;
      && |all| == Used(t.slots) && |w.given| == n && w.at.given == n
      && (forall i :: 0 <= i < n ==> w.given[i] == Some(all[i]))
      && InUseFrom(t.slots, w.at.cursor) == all[n..]
      && w.at.cursor == if n == 0 then 0 else all[n - 1] + 1
  {
    InUseFromCount(t.slots, 0);
    if n > 0 {
      FirstCalls(t, n - 1);
      var p := NextTimes(t, n - 1).value.at;
      RestInUse(t.slots, p.cursor);
      var all := InUseFrom(t.slots, 0);
      assert all[n - 1..][1..] == all[n..];
    }
  }

  lemma {:induction false} LaterCalls(t: Table, m: nat, n: nat)
    requires m <= n && NextTimes(t, m).Some? && Exhausted(t, NextTimes(t, m).value.at)
    requires |NextTimes(t, m).value.given| == m
    ensures NextTimes(t, n).Some?
    ensures var v, w := NextTimes(t, m).value, NextTimes(t, n).value;
      && w.at == v.at && |w.given| == n
      && (forall i :: 0 <= i < n ==> w.given[i] == if i < m then v.given[i] else None)
    decreases n
  {
    if m < n {
      LaterCalls(t, m, n - 1);
    }
  }

  /** While `Count` does not exceed the slots in use, iteration gives the first `Count` of them in
      slot order, each once, and then nothing. */
  lemma IterationExact(t: Table, n: nat)
    requires t.count <= Used(t.slots)
    ensures NextTimes(t, n).Some?
    ensures var all, w := InUseFrom(t.slots, 0), NextTimes(t, n).value;
      && |all| == Used(t.slots) && |w.given| == n
      && (forall i :: 0 <= i < n ==> w.given[i] == if i < t.count then Some(all[i]) else None)
  {
    if n <= t.count {
      FirstCalls(t, n);
    } else {
      FirstCalls(t, t.count);
      LaterCalls(t, t.count, n);
    }
  }

  /** Once `Used` calls have been made the cursor is just past the last slot in use. */
  lemma CursorPastLast(t: Table)
    requires 0 < |t.slots| && Used(t.slots) < t.count
    ensures NextTimes(t, Used(t.slots)).Some?
    ensures var p := NextTimes(t, Used(t.slots)).value.at;
      && |NextTimes(t, Used(t.slots)).value.given| == Used(t.slots)
      && InUseFrom(t.slots, p.cursor) == [] && p.given < t.count
      && (p.cursor >= |t.slots| <==> t.slots[|t.slots| - 1].key.Some?)
  {
    var u := Used(t.slots);
    FirstCalls(t, u);
    InUseFromExact(t.slots, 0);
    var all, last := InUseFrom(t.slots, 0), |t.slots| - 1;
    if t.slots[last].key.Some? {
      assert last in all;
      var i :| 0 <= i < |all| && all[i] == last;
      assert all[i] <= all[u - 1];
    }
  }

  /** Every call stays inside the array exactly when `Count` does not exceed the slots in use,
      or the last slot is in use. */
  lemma IterationSafeIff(t: Table)
    requires 0 < |t.slots|
    ensures (forall n: nat :: NextTimes(t, n).Some?)
       <==> t.count <= Used(t.slots) || t.slots[|t.slots| - 1].key.Some?
  {
    var u := Used(t.slots);
    if t.count <= u {
      forall n: nat ensures NextTimes(t, n).Some? {
        IterationExact(t, n);
      }
    } else {
      CursorPastLast(t);
      if t.slots[|t.slots| - 1].key.Some? {
        forall n: nat ensures NextTimes(t, n).Some? {
          if n <= u {
            FirstCalls(t, n);
          } else {
            LaterCalls(t, u, n);
          }
        }
      } else {
        assert NextTimes(t, u + 1).None?;
      }
    }
  }

  // ---- the keys an iteration gives ----

  /** The keys of the first `Count` items. */
  ghost function KeysGiven(t: Table): set<Key>
    requires t.count <= Used(t.slots)
  {
    IterationExact(t, t.count);
    InUseFromExact(t.slots, 0);
    set i | 0 <= i < t.count :: KeyGiven(t, i)
  }

  /** The key of the item that call `i` gives. */
  ghost function KeyGiven(t: Table, i: nat): (k: Key)
    requires i < t.count <= Used(t.slots)
    ensures exists j: nat :: Stores(t.slots, j, k)
  {
    IterationExact(t, t.count);
    InUseFromExact(t.slots, 0);
    var j := NextTimes(t, t.count).value.given[i].value;
    assert Stores(t.slots, j, t.slots[j].key.value);
    t.slots[j].key.value
  }

  /** No key is given twice. */
  lemma GivenOnce(t: Table, a: nat, b: nat)
    requires Distinct(t.slots) && a < b < t.count <= Used(t.slots)
    ensures KeyGiven(t, a) != KeyGiven(t, b)
  {
    IterationExact(t, t.count);
    InUseFromExact(t.slots, 0);
    var all := InUseFrom(t.slots, 0);
    assert Stores(t.slots, all[a], KeyGiven(t, a)) && Stores(t.slots, all[b], KeyGiven(t, b));
  }

  lemma {:induction false} FirstKeys(t: Table, n: nat)
    requires Distinct(t.slots) && n <= t.count <= Used(t.slots)
    ensures |set i | 0 <= i < n :: KeyGiven(t, i)| == n
  {
    var ks := set i | 0 <= i < n :: KeyGiven(t, i);
    if n == 0 {
      assert ks == {};
    } else {
      FirstKeys(t, n - 1);
      var before := set i | 0 <= i < n - 1 :: KeyGiven(t, i);
      assert KeyGiven(t, n - 1) !in before by {
        forall i | 0 <= i < n - 1 ensures KeyGiven(t, i) != KeyGiven(t, n - 1) {
          GivenOnce(t, i, n - 1);
        }
      }
      assert ks == before + {KeyGiven(t, n - 1)};
    }
  }

  /** With distinct keys and a `Count` of at most the slots in use, an iteration gives `Count` keys of the map,
      each once; they are all of it exactly when `Count` equals the slots in use. */
  lemma IterationKeys(t: Table)
    requires Distinct(t.slots) && t.count <= Used(t.slots)
    ensures KeysGiven(t) <= MapOf(t.slots).Keys && |KeysGiven(t)| == t.count
    ensures |MapOf(t.slots).Keys - KeysGiven(t)| == Used(t.slots) - t.count
    ensures KeysGiven(t) == MapOf(t.slots).Keys <==> t.count == Used(t.slots)
  {
    FirstKeys(t, t.count);
    UsedIsMapSize(t.slots);
    var all, given := MapOf(t.slots).Keys, KeysGiven(t);
    forall k | k in given ensures k in all {
      var i :| 0 <= i < t.count && k == KeyGiven(t, i);
    }
    assert all == given + (all - given);
    if |all - given| == 0 {
      assert all - given == {};
    }
  }

  /** After a list of insertions into a new table an iteration gives every key inserted if and only if the
      table has not rehashed; otherwise as many keys as the initial capacity are not given. */
  lemma IterationAfterInsertions(capacity: nat, h: seq<(Key, Text)>)
    requires InsertAll(NewTable(capacity), h).Some?
    ensures var t := InsertAll(NewTable(capacity), h).value;
      && t.count <= Used(t.slots) && KeysGiven(t) <= KeysOf(h)
      && (KeysGiven(t) == KeysOf(h) <==> !Rehashes(InitialCapacity(capacity), h))
      && |KeysOf(h) - KeysGiven(t)| == if Rehashes(InitialCapacity(capacity), h) then InitialCapacity(capacity) else 0
  {
    var t := InsertAll(NewTable(capacity), h).value;
    CountAfterInsertions(capacity, h);
    FreshTableTheorem(capacity, h);
    KeysFromEmpty(h);
    UsedIsMapSize(t.slots);
    IterationKeys(t);
  }

  /** So is an iteration after any list of insertions and removals without a rehash, as long as none inserts a
      key that is stored and cannot be found. */
  lemma {:induction false} IterationAfterCalls(t: Table, cs: seq<Call>)
    requires 0 < |t.slots| && Distinct(t.slots) && HashesRight(t.slots) && t.count == Used(t.slots)
    requires CallAll(t, cs).Some? && AllSafe(t, cs) && NoneRehashes(t, cs)
    ensures var r := CallAll(t, cs).value;
      r.count <= Used(r.slots) && KeysGiven(r) == MapAfterCalls(t, cs, MapOf(t.slots)).Keys
  {
    CallsTheorem(t, cs);
    CallsCount(t, cs);
    IterationKeys(CallAll(t, cs).value);
  }
}
