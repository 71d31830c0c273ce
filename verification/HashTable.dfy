/** `vhash_table` and `vhash_iterator` as the objects the server updates in place. */
module HashTables {
  import opened Basics
  import opened Probing
  import opened TableSpec
  import opened Removal
  import opened Iteration

  method HashOf(key: Text) returns (hash: nat)
    ensures hash == Djb2(key)
  {
    hash := 5381;
    for i := 0 to |key|
      invariant hash == Djb2(key[..i])
    {
      assert key[..i + 1][..i] == key[..i];
      hash := (hash * 33 + key[i]) % U64;
    }
    assert key[..|key|] == key;
  }

  /** A value returned, the null pointer being `None`. */
  function Answered(value: Option<Text>): Answer {
    if value.Some? then Found(value.value) else NotFound
  }

  method FreeItems(n: nat) returns (items: array<Slot>)
    ensures fresh(items) && items[..] == FreeSlots(n)
  {
    items := new Slot[n](_ => FREE_SLOT);
    assert items[..] == FreeSlots(n);
  }

  class HashTable {
    var items: array<Slot>
    var count: nat
    var capacity: nat

    ghost predicate Valid()
      reads this
    {
      0 < capacity == items.Length
    }

    ghost function View(): Table
      reads this, items
    {
      Table(items[..], count)
    }

    constructor (size: nat)
      ensures Valid() && fresh(items)
      ensures View() == NewTable(size)
    {
      var n := if size == 0 then INIT_CAPACITY else size;
      var free := FreeItems(n);
      items, count, capacity := free, 0, n;
    }

    /** The inner loop of a rehash: the first free slot from `start` on. */
    method ProbeFree(start: nat) returns (index: nat)
      requires Valid() && start < capacity && Used(items[..]) < capacity
      ensures index == FirstFree(items[..], start, 0)
    {
      index := start;
      ghost var d, s := 0, items[..];
      while items[index].key != None
        invariant index < capacity == |s| && Passed(s, start, None, d)
        invariant d < capacity && index == Wrapped(start, d, capacity)
        invariant FirstFree(s, start, d) == FirstFree(s, start, 0)
        decreases capacity - d
      {
        WrappedIsModulo(index, 1, capacity);
        PassedOneMore(s, start, None, d);
        SomeSlotLeft(s, start, d + 1);
        index := (index + 1) % capacity;
        d := d + 1;
      }
    }

    method PlaceItem(item: Slot)
      requires Valid() && Used(items[..]) < capacity
      modifies items
      ensures items[..] == Place(old(items[..]), item)
    {
      var index := ProbeFree(item.hash % capacity);
      items[index] := item;
    }

    /** Copies every item, free ones too, into an array of twice the capacity. */
    method Rehash()
      requires Valid()
      modifies this
      ensures Valid() && fresh(items)
      ensures View() == Table(Doubled(old(items[..])), 0)
    {
      var oldCapacity, oldItems := capacity, items;
      ghost var all := oldItems[..];
      capacity := capacity * 2;
      count := 0;
      items := FreeItems(capacity);
      CopyItems(oldItems, oldCapacity, all);
    }

    /** The loop of a rehash. */
    method CopyItems(oldItems: array<Slot>, oldCapacity: nat, ghost all: seq<Slot>)
      requires Valid() && oldItems != items && oldItems[..] == all
      requires capacity == 2 * oldCapacity && oldCapacity == oldItems.Length && Used(items[..]) == 0
      modifies items
      ensures items[..] == old(CopyFrom(all, 0, items[..]))
    {
      ghost var target := CopyFrom(all, 0, items[..]);
      for i := 0 to oldCapacity
        invariant oldItems[..] == all && Used(items[..]) <= i
        invariant CopyFrom(all, i, items[..]) == target
      {
        PlaceItem(oldItems[i]);
      }
    }

    /** A missing key in a full table makes the probe loop run forever. */
    method Get(key: Key) returns (value: Option<Text>)
      requires Valid() && Probe(items[..], key, 0) != Loops
      ensures Lookup(items[..], key) == Answered(value)
    {
      var hash := HashOf(key);
      var index := hash % capacity;
      ghost var d, s := 0, items[..];
      while items[index].key != None
        invariant d < capacity && index == Wrapped(Home(key, capacity), d, capacity)
        invariant Probe(s, key, d) == Probe(s, key, 0)
        decreases capacity - d
      {
        if items[index].key == Some(key) {
          return Some(items[index].value);
        }
        WrappedIsModulo(index, 1, capacity);
        index := (index + 1) % capacity;
        d := d + 1;
      }
      return None;
    }

    method Insert(key: Key, value: Text) returns (ok: bool)
      requires Valid() && Inserted(View(), key, value).Some?
      modifies this, items
      ensures Valid() && (items == old(items) || fresh(items))
      ensures ok && View() == old(Inserted(View(), key, value)).value
    {
      ghost var t := View();
      if count >= capacity {
        Rehash();
      }
      assert View() == Grown(t);
      InsertedGrown(t, key, value);
      StoreItem(key, value);
      return true;
    }

    /** The probe loop of an insertion, and the storing behind it. */
    method StoreItem(key: Key, value: Text)
      requires Valid() && count < capacity && Inserted(View(), key, value).Some?
      modifies this, items
      ensures Valid() && items == old(items)
      ensures Some(View()) == old(Inserted(View(), key, value))
    {
      ghost var g := View();
      var hash := HashOf(key);
      var index := hash % capacity;
      ghost var d := 0;
      while items[index].key != None
        invariant Valid() && View() == g && items == old(items)
        invariant d < capacity && index == Wrapped(Home(key, capacity), d, capacity)
        invariant Probe(g.slots, key, d) == Probe(g.slots, key, 0)
        decreases capacity - d
      {
        if items[index].key == Some(key) {
          InsertedAt(g, key, value, Hit(index));
          items[index] := items[index].(value := value);
          return;
        }
        WrappedIsModulo(index, 1, capacity);
        index := (index + 1) % capacity;
        d := d + 1;
      }
      InsertedAt(g, key, value, Miss(index));
      items[index] := Slot(Some(key), value, hash);
      count := count + 1;
    }

    /** Frees the item that the probe finds and hands its value to the caller. */
    method Remove(key: Key) returns (value: Option<Text>)
      requires Valid() && Probe(items[..], key, 0) != Loops
      modifies this, items
      ensures Valid() && items == old(items)
      ensures old(Lookup(items[..], key)) == Answered(value)
      ensures View() == Removed(old(View()), key)
    {
      var hash := HashOf(key);
      var index := hash % capacity;
      ghost var d, s, t := 0, items[..], View();
      while items[index].key != None
        invariant items == old(items) && items[..] == s && count == t.count && Valid()
        invariant d < capacity == |s| && index == Wrapped(Home(key, capacity), d, capacity)
        invariant Probe(s, key, d) == Probe(s, key, 0)
        decreases capacity - d
      {
        if items[index].key == Some(key) {
          items[index] := items[index].(key := None);
          count := if count == 0 then U64 - 1 else count - 1;
          assert items[..] == Freed(s, index);
          assert View() == Removed(t, key);
          return Some(items[index].value);
        }
        WrappedIsModulo(index, 1, capacity);
        index := (index + 1) % capacity;
        d := d + 1;
      }
      return None;
    }
  }

  class HashIterator {
    var cursor: nat
    var count: nat
    const table: HashTable

    ghost function At(): Position
      reads this
    {
      Position(cursor, count)
    }

    constructor (table: HashTable)
      ensures this.table == table && At() == Position(0, 0)
    {
      cursor, count, this.table := 0, 0, table;
    }

    /** The index of the next item, if any. */
    method Next() returns (item: Option<nat>)
      requires table.Valid() && NextStaysInside(table.View(), At())
      modifies this
      ensures (item, At()) == Iteration.Next(table.View(), old(At()))
    {
      if cursor >= table.capacity || count == table.count {
        return None;
      }
      ghost var s := table.items[..];
      while table.items[cursor].key == None
        invariant cursor < table.capacity && count == old(count)
        invariant table.View() == old(table.View()) && InUseFrom(s, cursor) == InUseFrom(s, old(cursor)) != []
        decreases table.capacity - cursor
      {
        cursor := cursor + 1;
      }
      item := Some(cursor);
      cursor := cursor + 1;
      count := count + 1;
    }
  }
}
