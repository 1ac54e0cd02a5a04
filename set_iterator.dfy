/**
 * `HashSetIterator`: a fail-fast iterator over the table's keys, slot by slot in index
 * order and each chain head to tail. `index` is the slot whose chain it walks (-1 before
 * the first), `iter` the keys of that chain not yet returned (null before the first), and
 * `changes` the set's modification count when the iterator was made.
 */
module SetIteration {
  import opened Wrappers
  import opened Buckets
  import opened HashSet

  class HashSetIterator {
    const hashSet: StringHashSet
    var iter: Option<seq<string>>
    var index: int
    const changes: int

    /**
     * The set's array has `capacity` cells (as every well-formed set's does); a chain is
     * being walked exactly when `index` names a slot.
     */
    ghost predicate Valid()
      reads this, hashSet
    {
      hashSet.table.Length == hashSet.capacity && -1 <= index && (iter.None? <==> index == -1)
    }

    /** The keys still to come: the rest of the current chain, then the chains after `index`. */
    ghost function Remaining(): seq<string>
      requires index >= -1
      reads this, hashSet, hashSet.table
    {
      (if iter.Some? then iter.value else []) + After(hashSet.table[..], index + 1)
    }

    /** `new HashSetIterator(hashSet)`: nothing visited yet, and the set's count captured. */
    constructor (hashSet: StringHashSet)
      requires hashSet.Valid()
      ensures Valid() && this.hashSet == hashSet && changes == hashSet.changes
      ensures iter == None && index == -1
      ensures Remaining() == Flatten(hashSet.Slots())
    {
      this.hashSet := hashSet;
      this.changes := hashSet.changes;
      iter := None;
      index := -1;
      new;
      AfterIsSuffix(hashSet.table[..], 0);
      assert hashSet.table[..][0..] == hashSet.table[..];
    }

    /**
     * `hasNext`: a concurrent modification once the set's count has moved; otherwise
     * whether any key remains, scanning for a later slot whose chain has a head key.
     */
    method HasNext() returns (r: Result<bool>)
      requires Valid()
      ensures changes != hashSet.changes ==> r == Err(ConcurrentModification)
      ensures changes == hashSet.changes ==> r == Ok(Remaining() != [])
    {
      if changes != hashSet.changes {
        return Err(ConcurrentModification);
      }
      if iter.Some? && iter.value != [] {
        return Ok(true);
      }
      var i := Scan(hashSet.table, hashSet.capacity, index + 1);
      if i < hashSet.capacity {
        return Ok(true);
      }
      return Ok(false);
    }

    /**
     * `next`: a concurrent modification once the set's count has moved; otherwise the
     * first remaining key, which is then no longer remaining, or `NoSuchElement` when none
     * remains (the source indexes the array at -1 when the set was empty from the start).
     */
    method Next() returns (r: Result<string>)
      requires Valid()
      modifies this
      ensures Valid()
      ensures changes != hashSet.changes ==> r == Err(ConcurrentModification) && unchanged(this)
      ensures changes == hashSet.changes && old(Remaining()) == [] ==> r == Err(NoSuchElement) && unchanged(this)
      ensures changes == hashSet.changes && old(Remaining()) != [] ==>
                r == Ok(old(Remaining())[0]) && Remaining() == old(Remaining())[1..]
    {
      if changes != hashSet.changes {
        return Err(ConcurrentModification);
      }
      if iter.Some? {
        if iter.value == [] {
          var more := HasNext();
          if !more.value {
            return Err(NoSuchElement);
          }
        } else {
          var key := iter.value[0];
          ghost var after := After(hashSet.table[..], index + 1);
          TakeFirst(iter.value, after);
          iter := Some(iter.value[1..]);
          return Ok(key);
        }
      }
      r := NextChain();
    }

    /**
     * The end of `next` once the current chain is used up: move `index` to the next slot
     * whose chain has a head key and return that key, the rest of the chain to follow.
     */
    method NextChain() returns (r: Result<string>)
      requires Valid() && (iter.None? || iter.value == [])
      modifies this
      ensures Valid()
      ensures old(Remaining()) == [] ==> r == Err(NoSuchElement) && unchanged(this)
      ensures old(Remaining()) != [] ==> r == Ok(old(Remaining())[0]) && Remaining() == old(Remaining())[1..]
    {
      ghost var slots := hashSet.table[..];
      var i := Scan(hashSet.table, hashSet.capacity, index + 1);
      if i >= hashSet.capacity {
        assert old(Remaining()) == [];
        return Err(NoSuchElement);
      }
      ghost var chain := ChainOf(slots[i]);
      ghost var rest := After(slots, i + 1);
      AfterUnfold(slots, i);
      TakeFirst(chain, rest);
      assert old(Remaining()) == chain + rest;
      var key := EnterChain(i);
      r := Ok(key);
    }

    /** Walk slot `i` next: its head key is returned and the rest of its chain is to follow. */
    method EnterChain(i: int) returns (key: string)
      requires Valid() && 0 <= i < hashSet.capacity && ChainOf(hashSet.table[i]) != []
      modifies this
      ensures Valid() && index == i
      ensures key == ChainOf(hashSet.table[i])[0]
      ensures Remaining() == ChainOf(hashSet.table[i])[1..] + After(hashSet.table[..], i + 1)
    {
      index := i;
      var chain := hashSet.table[i].value;
      iter := Some(chain[1..]);
      key := chain[0];
    }

    /**
     * The scan both methods run: from slot `from` on, the first slot whose chain has a
     * head key, or `capacity` when there is none; the slots skipped hold no keys.
     */
    static method Scan(table: array<Slot>, capacity: int, from: int) returns (i: int)
      requires capacity == table.Length && from >= 0
      ensures i == FirstChain(table[..], from)
      ensures from <= i && (i < capacity ==> ChainOf(table[i]) != [])
      ensures After(table[..], from) == After(table[..], i)
    {
      i := from;
      while i < capacity
        invariant from <= i
        invariant FirstChain(table[..], from) == FirstChain(table[..], i)
        invariant After(table[..], from) == After(table[..], i)
      {
        if table[i] != None && table[i].value != [] {
          return;
        }
        i := i + 1;
      }
    }
  }
}
