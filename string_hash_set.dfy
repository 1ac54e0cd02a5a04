/**
 * `StringHashSet`: a separately chained hash table of strings. `table` holds one chain
 * per slot; a key lives in the chain at `normalised hash % capacity`; when a new key
 * arrives while `size >= 2 * capacity` the table first doubles and rehashes. `changes`
 * counts structural modifications for the set iterator.
 *
 * Each array cell holds its chain as a value (see `Buckets`): `None` for a null cell,
 * `Some([])` for a chain whose last key was removed, `Some(c)` for the chain whose keys,
 * head first, are `c`. The chain operations used here (`add` prepends, `remove` drops the
 * first match, `moveToFront`) are the sequence functions that `Chain.Node` is proved against.
 */
module HashSet {
  import opened Wrappers
  import opened JavaInt
  import opened ChainSpec
  import opened StringHash
  import opened Buckets
  import opened RawString

  const DEFAULT_CAPACITY := 5

  /** The largest capacity whose double is still a Java `int`. */
  const MAX_CAPACITY := 0x3FFF_FFFF

  /** One `add` of `addAll`: the modification count moves with the number of keys added so far. */
  lemma ChangesStep(c0: int, count: int, next: int, before: int, after: int, added: bool)
    requires IsInt(c0) && 0 <= count && count + 1 < Modulus && before == Advance(c0, count)
    requires next == if added then count + 1 else count
    requires after == if added then Inc(before) else before
    ensures after == Advance(c0, next)
  {
    AdvanceStep(c0, count);
  }

  /** The keys of `addAll` not already present are the growth of the set. */
  lemma UnionCount(keys: set<string>, items: set<string>)
    ensures |keys + items| == |keys| + |items - keys|
  {
    assert keys + items == keys + (items - keys);
    assert keys * (items - keys) == {};
  }

  /** The items of a sequence, as a set. */
  function Elements(items: seq<string>): set<string> {
    set x | x in items
  }

  class StringHashSet {
    var size: int
    var capacity: int
    var table: array<Slot>
    var changes: int
    ghost var Repr: set<object>

    /**
     * The array has `capacity` cells, the cells satisfy the table invariant with `size`
     * keys, and the load factor never exceeds 2.
     */
    ghost predicate Valid()
      reads this, Repr
    {
      Repr == {this, table} &&
      table.Length == capacity &&
      0 < capacity <= MAX_CAPACITY && 0 <= size <= MAX_VALUE && IsInt(changes) &&
      size <= 2 * capacity &&
      TableInv(table[..], size)
    }

    /** The table as a value. */
    ghost function Slots(): seq<Slot>
      reads this, table
    {
      table[..]
    }

    /** The members of the set. */
    ghost function Keys(): set<string>
      reads this, table
    {
      KeySet(table[..])
    }

    /** `StringHashSet()`: an empty set of the default capacity. */
    constructor ()
      ensures Valid() && fresh(Repr)
      ensures capacity == DEFAULT_CAPACITY && size == 0 && changes == 1
      ensures Slots() == EmptySlots(DEFAULT_CAPACITY) && Keys() == {}
    {
      changes := 0;
      table := new Slot[0];
      new;
      Initialize(DEFAULT_CAPACITY);
    }

    /** `StringHashSet(initialCapacity)`: an empty set with the given number of slots. */
    constructor WithCapacity(initialCapacity: int)
      requires 0 < initialCapacity <= MAX_CAPACITY
      ensures Valid() && fresh(Repr)
      ensures capacity == initialCapacity && size == 0 && changes == 1
      ensures Slots() == EmptySlots(initialCapacity) && Keys() == {}
    {
      changes := 0;
      table := new Slot[0];
      new;
      Initialize(initialCapacity);
    }

    /** `initialize`: a fresh all-null table of the given capacity, no keys, one more change. */
    method Initialize(initialCapacity: int)
      requires 0 < initialCapacity <= MAX_CAPACITY && IsInt(changes)
      modifies this
      ensures Valid() && fresh(table) && Repr == {this, table}
      ensures size == 0 && capacity == initialCapacity && changes == Inc(old(changes))
      ensures Slots() == EmptySlots(initialCapacity) && Keys() == {}
    {
      size := 0;
      capacity := initialCapacity;
      table := new Slot[capacity](_ => None);
      changes := Inc(changes);
      Repr := {this, table};
      assert table[..] == EmptySlots(capacity);
      EmptyTable(capacity);
    }

    /** `clear`: drop every key and go back to the default capacity. */
    method Clear()
      requires Valid()
      modifies this
      ensures Valid() && fresh(Repr - old(Repr))
      ensures Keys() == {} && size == 0 && capacity == DEFAULT_CAPACITY
      ensures Slots() == EmptySlots(DEFAULT_CAPACITY)
      ensures changes == Inc(old(changes)) && changes != old(changes)
    {
      Initialize(DEFAULT_CAPACITY);
    }

    /** The hash the table uses: `stringHashCode`, with `Integer.MAX_VALUE + 1` added when negative. */
    static method Hash(item: string) returns (hash: int)
      ensures hash == Normalise(HashCode(item))
      ensures 0 <= hash < 0x8000_0000
    {
      hash := StringHashCode(item);
      if hash < 0 {
        hash := Wrap(hash + Wrap(MAX_VALUE + 1));
      }
      NormalisedHash(item);
    }

    /** `hash % capacity` on the normalised hash: the slot of `item`. */
    method IndexOf(item: string) returns (index: int)
      requires Valid()
      ensures index == SlotIndex(item, capacity) && 0 <= index < capacity
    {
      var hash := Hash(item);
      index := Rem(hash, capacity);
    }

    /**
     * `add`: insert a new key at the head of its chain, doubling the table first when
     * `size >= 2 * capacity`; a present key changes nothing. A new key that triggers a
     * resize may only arrive while the doubled capacity stays within `MAX_CAPACITY`.
     */
    method Add(item: string) returns (r: bool)
      requires Valid()
      requires item !in Keys() && size >= 2 * capacity ==> 2 * capacity <= MAX_CAPACITY
      modifies Repr
      decreases if size < 2 * capacity then 0 else 1, 4
      ensures Valid() && fresh(Repr - old(Repr))
      ensures Slots() == AddSlots(old(Slots()), old(size), item)
      ensures Keys() == old(Keys()) + {item}
      ensures r == (item !in old(Keys()))
      ensures size == if r then old(size) + 1 else old(size)
      ensures changes == if r then Inc(old(changes)) else old(changes)
      ensures capacity == if r && old(size) >= 2 * old(capacity) then 2 * old(capacity) else old(capacity)
    {
      ghost var slots0 := Slots();
      AddKeys(slots0, size, item);
      MemberAtIndex(slots0, item);
      var index := IndexOf(item);
      EnsureChain(index);
      var found := item in table[index].value;
      if !found {
        if size >= capacity * 2 {
          AddAfterGrow(slots0, size, item);
          index := GrowFor(item);
        } else {
          AddInPlace(slots0, size, item);
        }
        Prepend(index, item);
        r := true;
      } else {
        r := false;
      }
    }

    /** `if (array[index] == null) array[index] = new Node()`: the slot gets an emptied chain if it had none. */
    method EnsureChain(index: int)
      requires Valid() && 0 <= index < capacity
      modifies table
      ensures Valid() && Slots() == Ensure(old(Slots()), index)
    {
      ghost var slots := Slots();
      EnsureInv(slots, size, index);
      if table[index] == None {
        table[index] := Some([]);
      }
      assert table[..] == Ensure(slots, index);
    }

    /** `array[index].add(item); size++; changes++`: a new key goes to the head of its own slot's chain. */
    method Prepend(index: int, item: string)
      requires Valid() && index == SlotIndex(item, capacity) && table[index].Some?
      requires item !in table[index].value && size < 2 * capacity && size < MAX_VALUE
      modifies this, table
      ensures Valid() && table == old(table) && Repr == old(Repr) && capacity == old(capacity)
      ensures Slots() == old(Slots())[index := Some([item] + old(table[index].value))]
      ensures size == old(size) + 1 && changes == Inc(old(changes))
    {
      ghost var slots := Slots();
      PrependKey(slots, size, index, item);
      table[index] := Some([item] + table[index].value);
      assert table[..] == slots[index := Some([item] + ChainOf(slots[index]))];
      size := size + 1;
      changes := Inc(changes);
    }

    /** The resize branch of `add`: double and rehash, then make sure the key's new slot has a chain. */
    method GrowFor(item: string) returns (index: int)
      requires Valid() && size >= 2 * capacity && 2 * capacity <= MAX_CAPACITY
      modifies Repr
      decreases 1, 3
      ensures Valid() && fresh(Repr - old(Repr))
      ensures capacity == 2 * old(capacity) && index == SlotIndex(item, capacity)
      ensures Slots() == Ensure(Rehash(old(Slots()), 2 * old(capacity)), index)
      ensures size == old(size) && changes == old(changes)
    {
      Grow();
      index := IndexOf(item);
      EnsureChain(index);
    }

    /**
     * The resize inside `add`: every key, slot by slot and head to tail, is added to a
     * fresh table of twice the capacity, whose array then replaces this one.
     */
    method Grow()
      requires Valid() && size >= 2 * capacity && 2 * capacity <= MAX_CAPACITY
      modifies Repr
      decreases 1, 2
      ensures Valid() && fresh(Repr - old(Repr))
      ensures capacity == 2 * old(capacity) && Slots() == Rehash(old(Slots()), 2 * old(capacity))
      ensures size == old(size) && changes == old(changes)
    {
      var hashSet := Rebuild(table, size);
      table := hashSet.table;
      capacity := capacity * 2;
      Repr := {this, table};
    }

    /**
     * `new StringHashSet(capacity * 2)` filled by adding the keys of `old`, slot by slot
     * and each chain head to tail.
     */
    static method Rebuild(source: array<Slot>, size: int) returns (hashSet: StringHashSet)
      requires TableInv(source[..], size) && size >= 2 * source.Length && 2 * source.Length <= MAX_CAPACITY
      requires size <= 2 * source.Length && size <= MAX_VALUE
      decreases 1, 1
      ensures fresh(hashSet) && fresh(hashSet.Repr) && hashSet.Valid()
      ensures hashSet.capacity == 2 * source.Length && hashSet.size == size
      ensures hashSet.Slots() == Rehash(source[..], 2 * source.Length)
    {
      ghost var slots := source[..];
      hashSet := new StringHashSet.WithCapacity(source.Length * 2);
      RehashStart(slots, 2 * source.Length);
      for i := 0 to source.Length
        invariant hashSet.Valid() && fresh(hashSet.Repr)
        invariant hashSet.capacity == 2 * source.Length
        invariant hashSet.Slots() == InsertAll(EmptySlots(2 * source.Length), Flatten(slots[..i]))
        invariant hashSet.size <= |Flatten(slots[..i])|
      {
        RehashPrefix(slots, size, i, 2 * source.Length);
        assert source[i] == slots[i];
        if source[i] != None {
          Reinsert(hashSet, source[i].value);
        }
      }
      RehashEnd(slots, size, 2 * source.Length);
    }

    /** `for (String s : list) hashSet.add(s)`: the keys of one chain, head to tail, into the new table. */
    static method Reinsert(hashSet: StringHashSet, chain: seq<string>)
      requires hashSet.Valid()
      requires hashSet.size + |chain| <= 2 * hashSet.capacity
      requires hashSet.size + |chain| <= MAX_VALUE
      modifies hashSet.Repr
      decreases 1, 0
      ensures hashSet.Valid() && fresh(hashSet.Repr - old(hashSet.Repr))
      ensures hashSet.Slots() == InsertAll(old(hashSet.Slots()), chain)
      ensures hashSet.size <= old(hashSet.size) + |chain|
      ensures hashSet.capacity == old(hashSet.capacity)
    {
      for j := 0 to |chain|
        invariant hashSet.Valid() && fresh(hashSet.Repr - old(hashSet.Repr))
        invariant hashSet.Slots() == InsertAll(old(hashSet.Slots()), chain[..j])
        invariant hashSet.size <= old(hashSet.size) + j
        invariant hashSet.capacity == old(hashSet.capacity)
      {
        InsertAllPrefix(old(hashSet.Slots()), chain, j);
        AddNoGrow(hashSet.Slots(), hashSet.size, chain[j]);
        var _ := hashSet.Add(chain[j]);
      }
      assert chain[..|chain|] == chain;
    }

    /**
     * `contains`: true exactly for a member, which moves to the front of its chain; the
     * members, the count, the capacity and the modification counter stay as they were.
     * An emptied chain answers false (the source dereferences its null head there).
     */
    method Contains(item: string) returns (r: bool)
      requires Valid()
      modifies table
      ensures Valid() && Slots() == ContainsSlots(old(Slots()), item)
      ensures r == (item in old(Keys())) && Keys() == old(Keys())
    {
      ghost var slots := Slots();
      MemberAtIndex(slots, item);
      ContainsSlotsSpec(slots, size, item);
      var index := IndexOf(item);
      if table[index] == None || table[index].value == [] {
        r := false;
      } else {
        var chain := table[index].value;
        r := item in chain;
        table[index] := Some(ChainSpec.MoveToFront(chain, item));
        assert table[..] == slots[index := Some(ChainSpec.MoveToFront(chain, item))];
      }
    }

    /**
     * `remove`: a member leaves its chain, the count drops by one and the counter moves on;
     * anything else changes nothing. The capacity never shrinks. An emptied chain answers
     * false (the source dereferences its null head there).
     */
    method Remove(item: string) returns (r: bool)
      requires Valid()
      modifies this, table
      ensures Valid() && table == old(table) && Repr == old(Repr) && capacity == old(capacity)
      ensures Slots() == RemoveSlots(old(Slots()), item)
      ensures r == (item in old(Keys())) && Keys() == old(Keys()) - {item}
      ensures size == if r then old(size) - 1 else old(size)
      ensures changes == if r then Inc(old(changes)) else old(changes)
    {
      ghost var slots := Slots();
      MemberAtIndex(slots, item);
      RemoveSlotsSpec(slots, size, item);
      var index := IndexOf(item);
      if table[index] != None && table[index].value != [] {
        r := Unlink(index, item);
      } else {
        r := false;
      }
    }

    /** `array[index].remove(item)` on a non-empty chain, then `size--; changes++` on success. */
    method Unlink(index: int, item: string) returns (success: bool)
      requires Valid() && index == SlotIndex(item, capacity)
      requires table[index].Some? && table[index].value != []
      modifies this, table
      ensures Valid() && table == old(table) && Repr == old(Repr) && capacity == old(capacity)
      ensures Slots() == old(Slots())[index := Some(RemoveFirst(old(table[index].value), item))]
      ensures success == (item in old(table[index].value))
      ensures size == if success then old(size) - 1 else old(size)
      ensures changes == if success then Inc(old(changes)) else old(changes)
    {
      ghost var slots := Slots();
      ChainRemoved(slots, size, index, item);
      var chain := table[index].value;
      success := item in chain;
      table[index] := Some(RemoveFirst(chain, item));
      assert table[..] == slots[index := Some(RemoveFirst(chain, item))];
      if success {
        size := size - 1;
        changes := Inc(changes);
      }
    }

    /** `size`: the number of members. */
    method Size() returns (n: int)
      requires Valid()
      ensures n == |Keys()| && n == |Flatten(Slots())|
    {
      IterationCoversTable(table[..], size);
      n := size;
    }

    /** `isEmpty`: true exactly when there are no members. */
    method IsEmpty() returns (r: bool)
      requires Valid()
      ensures r <==> Keys() == {}
    {
      IterationCoversTable(table[..], size);
      r := size == 0;
    }

    /**
     * `addAll`: every item is added in order, each `add` performed even after one has
     * succeeded; the result tells whether some item was new.
     */
    method AddAll(items: seq<string>) returns (success: bool)
      requires Valid() && size + |items| <= MAX_CAPACITY
      modifies Repr
      ensures Valid() && fresh(Repr - old(Repr))
      ensures Slots() == AddAllFrom(old(Slots()), old(size), items, 0)
      ensures Keys() == old(Keys()) + Elements(items)
      ensures success <==> !(Elements(items) <= old(Keys()))
      ensures size == old(size) + |Elements(items) - old(Keys())|
      ensures changes == Advance(old(changes), |Elements(items) - old(Keys())|)
      ensures success ==> changes != old(changes)
      ensures !success ==> Slots() == old(Slots()) && changes == old(changes)
    {
      ghost var keys0, slots0, size0 := Keys(), Slots(), size;
      success := AddEach(items, AddAllFrom(Slots(), size, items, 0), slots0, size0, changes);
      AddAllFromSpec(slots0, size0, items, 0);
      assert items[0..] == items;
      IterationCoversTable(slots0, size0);
      IterationCoversTable(Slots(), size);
      UnionCount(keys0, Elements(items));
      assert Elements(items) <= keys0 <==> Elements(items) - keys0 == {};
    }

    /** The loop of `addAll`, from the first item to the last. */
    method AddEach(items: seq<string>, ghost target: seq<Slot>,
                   ghost slots0: seq<Slot>, ghost size0: int, ghost changes0: int) returns (success: bool)
      requires Valid() && 0 <= size0 && size0 + |items| <= MAX_CAPACITY
      requires AddAllFrom(Slots(), size, items, 0) == target
      requires Slots() == slots0 && size == size0 && changes == changes0
      modifies Repr
      ensures Valid() && fresh(Repr - old(Repr))
      ensures Slots() == target
      ensures size0 <= size <= size0 + |items| && changes == Advance(changes0, size - size0)
      ensures (success <==> size > size0) && (!success ==> Slots() == slots0)
    {
      // Each pass is proved by AddNext; the loop itself needs only its contract.
      hide AddSlots;
      success := false;
      for j := 0 to |items|
        invariant Valid() && fresh(Repr - old(Repr))
        invariant AddAllFrom(Slots(), size, items, j) == target
        invariant size0 <= size <= size0 + j && changes == Advance(changes0, size - size0)
        invariant (success <==> size > size0) && (!success ==> Slots() == slots0)
      {
        success := AddNext(items, j, target, slots0, size0, changes0, success);
      }
    }

    /**
     * One pass of the `addAll` loop: the `add` of `items[j]`, which carries the loop's
     * invariant from `j` to `j + 1`.
     */
    method AddNext(items: seq<string>, j: int, ghost target: seq<Slot>,
                   ghost slots0: seq<Slot>, ghost size0: int, ghost changes0: int, success: bool)
      returns (success': bool)
      requires Valid() && 0 <= j < |items| && 0 <= size0 && size0 + |items| <= MAX_CAPACITY && IsInt(changes0)
      requires AddAllFrom(Slots(), size, items, j) == target
      requires size0 <= size <= size0 + j && changes == Advance(changes0, size - size0)
      requires (success <==> size > size0) && (!success ==> Slots() == slots0)
      modifies Repr
      ensures Valid() && fresh(Repr - old(Repr))
      ensures AddAllFrom(Slots(), size, items, j + 1) == target
      ensures size0 <= size <= size0 + j + 1 && changes == Advance(changes0, size - size0)
      ensures (success' <==> size > size0) && (!success' ==> Slots() == slots0)
    {
      ghost var slots, sz, changes1 := Slots(), size, changes;
      AddKeys(slots, sz, items[j]);
      var added := Add(items[j]);
      AddAllFromStep(slots, sz, items, j, Slots(), size);
      if !added {
        AddPresent(slots, sz, items[j]);
      }
      ChangesStep(changes0, sz - size0, size - size0, changes1, changes, added);
      success' := added || success;
    }

    /**
     * `toRawString`: for each array index in order, the index, a colon, and either "null"
     * for a null slot or every value the slot's chain yields followed by a space, then "null".
     */
    method ToRawString() returns (text: string)
      requires Valid()
      ensures text == RawTable(Slots())
    {
      ghost var lines := Lines(table[..]);
      text := "";
      var index := 0;
      for i := 0 to table.Length
        invariant index == i
        invariant text == Concat(lines[..i])
      {
        ConcatPrefix(lines, i);
        text := AppendLine(text, index, table[i]);
        index := index + 1;
      }
      assert lines[..table.Length] == lines;
    }

    /** One pass of the `toRawString` loop: the line of one slot. */
    static method AppendLine(text: string, index: nat, slot: Slot) returns (r: string)
      ensures r == text + RawLine(index, slot)
    {
      r := text + Decimal(index) + ": ";
      if slot != None {
        r := AppendData(r, NodeData(slot.value));
      } else {
        r := r + "null";
      }
      r := r + "\n";
      LineParts(text, index, slot);
    }

    /**
     * The inner loop of `toRawString`: each value the chain's iterator yields and a space,
     * and "null" once the iterator has nothing more.
     */
    static method AppendData(text: string, data: seq<Option<string>>) returns (r: string)
      requires data != []
      ensures r == text + Words(data) + "null"
    {
      r := text;
      var j := 0;
      assert data[..0] == [];
      assert text + Words([]) == text;
      while j < |data|
        invariant 0 <= j <= |data|
        invariant j < |data| ==> r == text + Words(data[..j])
        invariant j == |data| ==> r == text + Words(data) + "null"
      {
        AppendWord(text, data, j);
        r := r + Text(data[j]) + " ";
        j := j + 1;
        if j == |data| {
          assert data[..j] == data;
          r := r + "null";
        }
      }
    }
  }
}
