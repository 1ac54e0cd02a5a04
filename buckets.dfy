/**
 * The table as a value: one slot per array index, each either a null slot (`None`),
 * an emptied chain (`Some([])`) or a chain of keys (`Some(c)`, head first). The table
 * operations' effect on the slots, the table invariant they keep, and the order in which
 * the set iterator visits the keys are stated here.
 */
module Buckets {
  import opened Wrappers
  import opened ChainSpec
  import opened StringHash

  type Slot = Option<seq<string>>

  /** The keys in one slot; a null slot holds none. */
  function ChainOf(slot: Slot): seq<string> {
    if slot.Some? then slot.value else []
  }

  /** All keys, slot by slot in ascending index, each chain head to tail. */
  function Flatten(slots: seq<Slot>): seq<string> {
    if slots == [] then [] else ChainOf(slots[0]) + Flatten(slots[1..])
  }

  /** The members of the set. */
  function KeySet(slots: seq<Slot>): set<string> {
    set x | x in Flatten(slots)
  }

  /** Every key sits in the slot its hash selects. */
  predicate WellPlaced(slots: seq<Slot>) {
    forall i, j :: 0 <= i < |slots| && 0 <= j < |ChainOf(slots[i])| ==>
      SlotIndex(ChainOf(slots[i])[j], |slots|) == i
  }

  /** No chain holds a key twice. */
  predicate ChainsDistinct(slots: seq<Slot>) {
    forall i :: 0 <= i < |slots| ==> Distinct(ChainOf(slots[i]))
  }

  /** The table invariant: at least one slot, keys in their own slots, no duplicates, and `size` counts the keys. */
  predicate TableInv(slots: seq<Slot>, size: int) {
    |slots| > 0 && WellPlaced(slots) && ChainsDistinct(slots) && size == |Flatten(slots)|
  }

  /** A fresh array: every slot null. */
  function EmptySlots(n: nat): (r: seq<Slot>)
    ensures |r| == n
    ensures forall i :: 0 <= i < n ==> r[i] == None
  {
    seq(n, _ => None)
  }

  /** `add` without a resize: a null slot gets a chain, a new key is prepended, a present key changes nothing. */
  function InsertKey(slots: seq<Slot>, x: string): (r: seq<Slot>)
    requires |slots| > 0
    ensures |r| == |slots|
  {
    var i := SlotIndex(x, |slots|);
    if x in ChainOf(slots[i]) then slots else slots[i := Some([x] + ChainOf(slots[i]))]
  }

  /** `add` of each key in turn, first to last, into a table that does not resize. */
  function InsertAll(slots: seq<Slot>, keys: seq<string>): (r: seq<Slot>)
    requires |slots| > 0
    ensures |r| == |slots|
    decreases |keys|
  {
    if keys == [] then slots
    else InsertKey(InsertAll(slots, keys[..|keys| - 1]), keys[|keys| - 1])
  }

  /** The resize: every stored key, in iteration order, added to a fresh table of `capacity` slots. */
  function Rehash(slots: seq<Slot>, capacity: int): (r: seq<Slot>)
    requires capacity > 0
    ensures |r| == capacity
  {
    InsertAll(EmptySlots(capacity), Flatten(slots))
  }

  /** The table's `add`: a new key arriving while `size >= 2 * capacity` first doubles the table. */
  function AddSlots(slots: seq<Slot>, size: int, x: string): (r: seq<Slot>)
    requires |slots| > 0
    ensures |r| >= |slots|
  {
    var i := SlotIndex(x, |slots|);
    if x in ChainOf(slots[i]) then slots
    else if size >= 2 * |slots| then InsertKey(Rehash(slots, 2 * |slots|), x)
    else InsertKey(slots, x)
  }

  /** `addAll` from item `k` on: the table's `add` of each item in turn, the count growing with each new key. */
  function AddAllFrom(slots: seq<Slot>, size: int, items: seq<string>, k: nat): (r: seq<Slot>)
    requires |slots| > 0
    decreases |items| - k
  {
    if k >= |items| then slots
    else
      var size' := if items[k] in Flatten(slots) then size else size + 1;
      AddAllFrom(AddSlots(slots, size, items[k]), size', items, k + 1)
  }

  /** One `add` of `addAll`: the rest of the items added to the table that one leaves. */
  lemma AddAllFromStep(slots: seq<Slot>, size: int, items: seq<string>, k: nat, next: seq<Slot>, size': int)
    requires |slots| > 0 && k < |items|
    requires next == AddSlots(slots, size, items[k])
    requires size' == if items[k] in KeySet(slots) then size else size + 1
    ensures AddAllFrom(slots, size, items, k) == AddAllFrom(next, size', items, k + 1)
  {
  }

  /** `addAll` leaves the old members and every item. */
  lemma {:induction false} AddAllFromSpec(slots: seq<Slot>, size: int, items: seq<string>, k: nat)
    requires TableInv(slots, size) && k <= |items|
    ensures KeySet(AddAllFrom(slots, size, items, k)) == KeySet(slots) + set x | x in items[k..]
    decreases |items| - k
  {
    if k < |items| {
      var x := items[k];
      var size' := if x in KeySet(slots) then size else size + 1;
      var next := AddSlots(slots, size, x);
      AddAllFromStep(slots, size, items, k, next, size');
      AddKeys(slots, size, x);
      AddKeepsInv(slots, size, x);
      AddAllFromSpec(next, size', items, k + 1);
      SetOfCons(items[k..]);
      assert items[k..][1..] == items[k + 1..];
    }
  }

  /** `addAll` leaves a valid table. */
  lemma {:induction false} AddAllFromInv(slots: seq<Slot>, size: int, items: seq<string>, k: nat)
    requires TableInv(slots, size)
    ensures TableInv(AddAllFrom(slots, size, items, k), |Flatten(AddAllFrom(slots, size, items, k))|)
    decreases |items| - k
  {
    if k < |items| {
      var x := items[k];
      var size' := if x in KeySet(slots) then size else size + 1;
      var next := AddSlots(slots, size, x);
      AddAllFromStep(slots, size, items, k, next, size');
      AddKeepsInv(slots, size, x);
      AddAllFromInv(next, size', items, k + 1);
    }
  }

  /** `add` of a key already present leaves the table as it was. */
  lemma AddPresent(slots: seq<Slot>, size: int, x: string)
    requires TableInv(slots, size) && x in KeySet(slots)
    ensures AddSlots(slots, size, x) == slots
  {
    AddSlotsSpec(slots, size, x);
  }

  /** The members after one `add`. */
  lemma AddKeys(slots: seq<Slot>, size: int, x: string)
    requires TableInv(slots, size)
    ensures KeySet(AddSlots(slots, size, x)) == KeySet(slots) + {x}
  {
    AddSlotsSpec(slots, size, x);
  }

  /** The invariant after one `add`, with the count it leaves. */
  lemma AddKeepsInv(slots: seq<Slot>, size: int, x: string)
    requires TableInv(slots, size)
    ensures TableInv(AddSlots(slots, size, x), if x in KeySet(slots) then size else size + 1)
  {
    AddSlotsSpec(slots, size, x);
  }

  /** The items of a non-empty sequence: its head and the items of its tail. */
  lemma SetOfCons(items: seq<string>)
    requires items != []
    ensures (set x | x in items) == {items[0]} + set x | x in items[1..]
  {
    assert items == [items[0]] + items[1..];
  }

  /** `if (array[index] == null) array[index] = new Node()`: a null slot becomes an emptied chain. */
  function Ensure(slots: seq<Slot>, i: int): (r: seq<Slot>)
    requires 0 <= i < |slots|
    ensures |r| == |slots| && r[i].Some? && ChainOf(r[i]) == ChainOf(slots[i])
  {
    if slots[i] == None then slots[i := Some([])] else slots
  }

  /** Below the resize threshold the table's `add` is a plain insertion. */
  lemma AddNoGrow(slots: seq<Slot>, size: int, x: string)
    requires |slots| > 0 && size < 2 * |slots|
    ensures AddSlots(slots, size, x) == InsertKey(slots, x)
  {
  }

  /** The table's `remove`: the chain at the key's slot loses the key; a null or emptied slot is left alone. */
  function RemoveSlots(slots: seq<Slot>, x: string): (r: seq<Slot>)
    requires |slots| > 0
    ensures |r| == |slots|
  {
    var i := SlotIndex(x, |slots|);
    match slots[i]
    case None => slots
    case Some(c) => if c == [] then slots else slots[i := Some(RemoveFirst(c, x))]
  }

  /** The table's `contains`: a found key is moved to the front of its chain. */
  function ContainsSlots(slots: seq<Slot>, x: string): (r: seq<Slot>)
    requires |slots| > 0
    ensures |r| == |slots|
  {
    var i := SlotIndex(x, |slots|);
    match slots[i]
    case None => slots
    case Some(c) => if c == [] then slots else slots[i := Some(ChainSpec.MoveToFront(c, x))]
  }

  // ---------------------------------------------------------------------------
  // Flatten

  /** Replacing one slot changes the number of keys by the difference of the two chains' lengths. */
  lemma {:induction false} FlattenUpdate(slots: seq<Slot>, i: int, v: Slot)
    requires 0 <= i < |slots|
    ensures |Flatten(slots[i := v])| == |Flatten(slots)| - |ChainOf(slots[i])| + |ChainOf(v)|
  {
    var r := slots[i := v];
    assert Flatten(r) == ChainOf(r[0]) + Flatten(r[1..]);
    assert Flatten(slots) == ChainOf(slots[0]) + Flatten(slots[1..]);
    if i == 0 {
      assert r[1..] == slots[1..];
    } else {
      assert r[1..] == slots[1..][i - 1 := v];
      FlattenUpdate(slots[1..], i - 1, v);
    }
  }

  /** Replacing a slot by one with the same keys (a null slot by an emptied chain) leaves the flattened keys as they were. */
  lemma {:induction false} FlattenSameKeys(slots: seq<Slot>, i: int, v: Slot)
    requires 0 <= i < |slots| && ChainOf(v) == ChainOf(slots[i])
    ensures Flatten(slots[i := v]) == Flatten(slots)
  {
    if i == 0 {
      assert slots[i := v][1..] == slots[1..];
    } else {
      assert slots[i := v][1..] == slots[1..][i - 1 := v];
      FlattenSameKeys(slots[1..], i - 1, v);
    }
  }

  /** A key is in the flattened sequence exactly when some slot's chain holds it. */
  lemma {:induction false} InFlatten(slots: seq<Slot>, x: string)
    ensures x in Flatten(slots) <==> exists i :: 0 <= i < |slots| && x in ChainOf(slots[i])
  {
    if slots != [] {
      InFlatten(slots[1..], x);
      if x in Flatten(slots[1..]) {
        var i :| 0 <= i < |slots[1..]| && x in ChainOf(slots[1..][i]);
        assert x in ChainOf(slots[i + 1]);
      }
      if exists i :: 0 <= i < |slots| && x in ChainOf(slots[i]) {
        var i :| 0 <= i < |slots| && x in ChainOf(slots[i]);
        if i > 0 {
          assert x in ChainOf(slots[1..][i - 1]);
        }
      }
    }
  }

  /** In a well-placed table a key is a member exactly when the chain at its own slot holds it. */
  lemma MemberAtIndex(slots: seq<Slot>, x: string)
    requires |slots| > 0 && WellPlaced(slots)
    ensures x in KeySet(slots) <==> x in ChainOf(slots[SlotIndex(x, |slots|)])
  {
    InFlatten(slots, x);
    if x in KeySet(slots) {
      var i :| 0 <= i < |slots| && x in ChainOf(slots[i]);
      var j :| 0 <= j < |ChainOf(slots[i])| && ChainOf(slots[i])[j] == x;
      assert SlotIndex(ChainOf(slots[i])[j], |slots|) == i;
    }
  }

  /** Every key of a chain in a well-placed table hashes to that chain's slot. */
  lemma ChainPlaced(slots: seq<Slot>, i: int, y: string)
    requires WellPlaced(slots) && 0 <= i < |slots|
    requires y in ChainOf(slots[i])
    ensures SlotIndex(y, |slots|) == i
  {
    var j :| 0 <= j < |ChainOf(slots[i])| && ChainOf(slots[i])[j] == y;
  }

  lemma DistinctConcat(a: seq<string>, b: seq<string>)
    requires Distinct(a) && Distinct(b)
    requires forall x :: x in a ==> x !in b
    ensures Distinct(a + b)
  {
    forall i, j | 0 <= i < j < |a + b| ensures (a + b)[i] != (a + b)[j] {
      if i < |a| && j >= |a| {
        assert (a + b)[i] in a;
        assert (a + b)[j] == b[j - |a|];
      }
    }
  }

  /** In a well-placed table the keys of the slots from `k` on have slot index `k` or more. */
  lemma SuffixIndex(slots: seq<Slot>, k: int, x: string)
    requires |slots| > 0 && WellPlaced(slots)
    requires 0 <= k <= |slots|
    ensures x in Flatten(slots[k..]) ==> k <= SlotIndex(x, |slots|)
  {
    InFlatten(slots[k..], x);
    if x in Flatten(slots[k..]) {
      var i :| 0 <= i < |slots[k..]| && x in ChainOf(slots[k..][i]);
      assert slots[k..][i] == slots[k + i];
      var j :| 0 <= j < |ChainOf(slots[k + i])| && ChainOf(slots[k + i])[j] == x;
      assert SlotIndex(ChainOf(slots[k + i])[j], |slots|) == k + i;
    }
  }

  lemma {:induction false} FlattenSuffixDistinct(slots: seq<Slot>, k: int)
    requires |slots| > 0 && WellPlaced(slots) && ChainsDistinct(slots)
    requires 0 <= k <= |slots|
    ensures Distinct(Flatten(slots[k..]))
    decreases |slots| - k
  {
    if k < |slots| {
      FlattenSuffixDistinct(slots, k + 1);
      assert slots[k..][1..] == slots[k + 1..];
      var c := ChainOf(slots[k]);
      forall x | x in c ensures x !in Flatten(slots[k + 1..]) {
        var jx :| 0 <= jx < |c| && c[jx] == x;
        assert SlotIndex(c[jx], |slots|) == k;
        SuffixIndex(slots, k + 1, x);
      }
      DistinctConcat(c, Flatten(slots[k + 1..]));
    }
  }

  /** The keys of a table are those of its first `k` slots followed by those of the rest. */
  lemma {:induction false} FlattenSplit(slots: seq<Slot>, k: int)
    requires 0 <= k <= |slots|
    ensures Flatten(slots) == Flatten(slots[..k]) + Flatten(slots[k..])
    decreases k
  {
    if k == 0 {
      assert slots[..0] == [] && slots[0..] == slots;
    } else {
      FlattenSplit(slots[1..], k - 1);
      assert slots[..k][1..] == slots[1..][..k - 1];
      assert slots[1..][k - 1..] == slots[k..];
    }
  }

  /** One more slot of the prefix contributes its chain at the end. */
  lemma FlattenSnoc(slots: seq<Slot>, i: int)
    requires 0 <= i < |slots|
    ensures Flatten(slots[..i + 1]) == Flatten(slots[..i]) + ChainOf(slots[i])
  {
    var p := slots[..i + 1];
    FlattenSplit(p, i);
    assert p[..i] == slots[..i];
    assert p[i..] == [slots[i]];
    assert Flatten([slots[i]]) == ChainOf(slots[i]) + Flatten([]);
  }

  /** A well-placed table with duplicate-free chains holds no key twice anywhere. */
  lemma FlattenDistinct(slots: seq<Slot>)
    requires |slots| > 0 && WellPlaced(slots) && ChainsDistinct(slots)
    ensures Distinct(Flatten(slots))
  {
    FlattenSuffixDistinct(slots, 0);
    assert slots[0..] == slots;
  }

  /** A duplicate-free sequence has as many distinct members as elements. */
  lemma {:induction false} DistinctCount(s: seq<string>)
    requires Distinct(s)
    ensures |set x | x in s| == |s|
  {
    if s != [] {
      var t := s[1..];
      DistinctCount(t);
      assert (set x | x in s) == (set x | x in t) + {s[0]};
      assert s[0] !in t by {
        forall k | 0 <= k < |t| ensures t[k] != s[0] {
          assert t[k] == s[k + 1];
        }
      }
    }
  }

  // ---------------------------------------------------------------------------
  // The table invariant under each operation

  lemma {:induction false} FlattenEmpty(n: nat)
    ensures Flatten(EmptySlots(n)) == []
  {
    if n > 0 {
      assert EmptySlots(n)[1..] == EmptySlots(n - 1);
      FlattenEmpty(n - 1);
    }
  }

  /** A fresh table holds no keys and satisfies the invariant with size 0. */
  lemma EmptyTable(n: nat)
    requires n > 0
    ensures TableInv(EmptySlots(n), 0) && KeySet(EmptySlots(n)) == {}
  {
    FlattenEmpty(n);
  }

  /**
   * Replacing one chain by a duplicate-free chain of keys that belong to that slot keeps
   * the invariant.
   */
  lemma UpdateSlotInv(slots: seq<Slot>, size: int, i: int, v: Slot)
    requires TableInv(slots, size) && 0 <= i < |slots|
    requires Distinct(ChainOf(v))
    requires forall y :: y in ChainOf(v) ==> SlotIndex(y, |slots|) == i
    ensures TableInv(slots[i := v], size - |ChainOf(slots[i])| + |ChainOf(v)|)
  {
    var r := slots[i := v];
    FlattenUpdate(slots, i, v);
    assert WellPlaced(r) by {
      forall k, j | 0 <= k < |r| && 0 <= j < |ChainOf(r[k])|
        ensures SlotIndex(ChainOf(r[k])[j], |r|) == k
      {
        if k == i {
          assert ChainOf(r[k])[j] in ChainOf(v);
        }
      }
    }
  }

  /** ... and membership changes only for keys of that slot. */
  lemma UpdateSlot(slots: seq<Slot>, size: int, i: int, v: Slot)
    requires TableInv(slots, size) && 0 <= i < |slots|
    requires Distinct(ChainOf(v))
    requires forall y :: y in ChainOf(v) ==> SlotIndex(y, |slots|) == i
    ensures TableInv(slots[i := v], size - |ChainOf(slots[i])| + |ChainOf(v)|)
    ensures forall y :: y in KeySet(slots[i := v]) <==>
              if SlotIndex(y, |slots|) == i then y in ChainOf(v) else y in KeySet(slots)
  {
    var r := slots[i := v];
    UpdateSlotInv(slots, size, i, v);
    forall y ensures y in KeySet(r) <==> if SlotIndex(y, |slots|) == i then y in ChainOf(v) else y in KeySet(slots) {
      MemberAtIndex(r, y);
      MemberAtIndex(slots, y);
    }
  }

  /** A null slot becoming an emptied chain keeps the invariant. */
  lemma FillSlot(slots: seq<Slot>, size: int, i: int)
    requires TableInv(slots, size) && 0 <= i < |slots| && slots[i] == None
    ensures TableInv(slots[i := Some([])], size)
  {
    UpdateSlotInv(slots, size, i, Some([]));
  }

  /** An emptied chain in place of a null slot makes no difference to a resize. */
  lemma RehashFilled(slots: seq<Slot>, i: int, capacity: int)
    requires 0 <= i < |slots| && slots[i] == None && capacity > 0
    ensures Rehash(slots[i := Some([])], capacity) == Rehash(slots, capacity)
  {
    FlattenSameKeys(slots, i, Some([]));
  }

  /** Prepending a key that its chain lacks keeps the invariant with one more key. */
  lemma PrependKey(slots: seq<Slot>, size: int, i: int, x: string)
    requires TableInv(slots, size) && 0 <= i < |slots| && i == SlotIndex(x, |slots|)
    requires x !in ChainOf(slots[i])
    ensures TableInv(slots[i := Some([x] + ChainOf(slots[i]))], size + 1)
  {
    var c := ChainOf(slots[i]);
    var v := Some([x] + c);
    DistinctCons(x, c);
    forall y | y in ChainOf(v) ensures SlotIndex(y, |slots|) == i {
      if y != x {
        ChainPlaced(slots, i, y);
      }
    }
    UpdateSlotInv(slots, size, i, v);
  }

  /** `add` without a resize: the key joins the set; the count grows by one exactly when the key is new. */
  lemma InsertKeySpec(slots: seq<Slot>, size: int, x: string)
    requires TableInv(slots, size)
    ensures KeySet(InsertKey(slots, x)) == KeySet(slots) + {x}
    ensures TableInv(InsertKey(slots, x), if x in KeySet(slots) then size else size + 1)
    ensures x in KeySet(slots) ==> InsertKey(slots, x) == slots
  {
    MemberAtIndex(slots, x);
    var i := SlotIndex(x, |slots|);
    var c := ChainOf(slots[i]);
    if x !in c {
      var v := Some([x] + c);
      PrependKey(slots, size, i, x);
      forall y ensures y in KeySet(slots[i := v]) <==> y in KeySet(slots) || y == x {
        MemberAtIndex(slots, y);
        MemberAtIndex(slots[i := v], y);
      }
    }
  }

  lemma DistinctPrefix(keys: seq<string>)
    requires Distinct(keys) && keys != []
    ensures Distinct(keys[..|keys| - 1])
    ensures keys[|keys| - 1] !in keys[..|keys| - 1]
  {
    var init := keys[..|keys| - 1];
    forall a | 0 <= a < |init| ensures init[a] != keys[|keys| - 1] {
      assert init[a] == keys[a];
    }
  }

  lemma SetOfSnoc(init: seq<string>, last: string)
    ensures (set x | x in init + [last]) == (set x | x in init) + {last}
  {
  }

  /** Adding keys one after another adds them all and keeps the invariant. */
  lemma {:induction false} InsertAllSpec(slots: seq<Slot>, size: int, keys: seq<string>)
    requires TableInv(slots, size)
    ensures KeySet(InsertAll(slots, keys)) == KeySet(slots) + set x | x in keys
    ensures TableInv(InsertAll(slots, keys), |Flatten(InsertAll(slots, keys))|)
    decreases |keys|
  {
    if keys != [] {
      var init := keys[..|keys| - 1];
      var last := keys[|keys| - 1];
      assert keys == init + [last];
      InsertAllSpec(slots, size, init);
      var mid := InsertAll(slots, init);
      InsertAllSnoc(slots, init, last);
      InsertKeySpec(mid, |Flatten(mid)|, last);
      SetOfSnoc(init, last);
    }
  }

  /** Adding distinct keys that are all new grows the count by the number of keys. */
  lemma {:induction false} InsertAllCount(slots: seq<Slot>, size: int, keys: seq<string>)
    requires TableInv(slots, size)
    requires Distinct(keys) && forall x :: x in keys ==> x !in KeySet(slots)
    ensures |Flatten(InsertAll(slots, keys))| == size + |keys|
    decreases |keys|
  {
    if keys != [] {
      var init := keys[..|keys| - 1];
      var last := keys[|keys| - 1];
      DistinctPrefix(keys);
      assert forall x :: x in init ==> x in keys;
      InsertAllCount(slots, size, init);
      InsertAllSpec(slots, size, init);
      var mid := InsertAll(slots, init);
      InsertKeySpec(mid, size + |init|, last);
    }
  }

  /** Adding one more key is an `InsertKey` on the table built so far. */
  lemma InsertAllSnoc(slots: seq<Slot>, keys: seq<string>, x: string)
    requires |slots| > 0
    ensures InsertAll(slots, keys + [x]) == InsertKey(InsertAll(slots, keys), x)
  {
    assert (keys + [x])[..|keys|] == keys;
  }

  /** Adding one more key of a run is adding the run so far, then that key. */
  lemma InsertAllPrefix(slots: seq<Slot>, keys: seq<string>, i: int)
    requires |slots| > 0 && 0 <= i < |keys|
    ensures InsertAll(slots, keys[..i + 1]) == InsertKey(InsertAll(slots, keys[..i]), keys[i])
  {
    assert keys[..i + 1][..i] == keys[..i];
  }

  /** Adding two runs of keys is adding the first run, then the second. */
  lemma {:induction false} InsertAllAppend(slots: seq<Slot>, a: seq<string>, b: seq<string>)
    requires |slots| > 0
    ensures InsertAll(slots, a + b) == InsertAll(InsertAll(slots, a), b)
    decreases |b|
  {
    if b == [] {
      assert a + b == a;
    } else {
      var init, last := b[..|b| - 1], b[|b| - 1];
      assert a + b == (a + init) + [last];
      assert b == init + [last];
      InsertAllAppend(slots, a, init);
      InsertAllSnoc(slots, a + init, last);
      InsertAllSnoc(InsertAll(slots, a), init, last);
    }
  }

  /**
   * One step of the resize loop: rehashing the first `i + 1` slots is rehashing the first
   * `i`, then adding the keys of slot `i`; no prefix holds more keys than the table.
   */
  lemma RehashPrefix(slots: seq<Slot>, size: int, i: int, capacity: int)
    requires TableInv(slots, size) && 0 <= i < |slots| && capacity > 0
    ensures InsertAll(EmptySlots(capacity), Flatten(slots[..i + 1])) ==
            InsertAll(InsertAll(EmptySlots(capacity), Flatten(slots[..i])), ChainOf(slots[i]))
    ensures |Flatten(slots[..i + 1])| == |Flatten(slots[..i])| + |ChainOf(slots[i])| <= size
  {
    FlattenSnoc(slots, i);
    InsertAllAppend(EmptySlots(capacity), Flatten(slots[..i]), ChainOf(slots[i]));
    FlattenSplit(slots, i + 1);
  }

  /** The resize keeps the count and the invariant, in a table of the new capacity. */
  lemma RehashInv(slots: seq<Slot>, size: int, capacity: int)
    requires TableInv(slots, size) && capacity > 0
    ensures TableInv(Rehash(slots, capacity), size)
  {
    EmptyTable(capacity);
    FlattenDistinct(slots);
    InsertAllSpec(EmptySlots(capacity), 0, Flatten(slots));
    InsertAllCount(EmptySlots(capacity), 0, Flatten(slots));
  }

  /** Before the resize loop: no slot done, the new table still empty. */
  lemma RehashStart(slots: seq<Slot>, capacity: int)
    requires capacity > 0
    ensures InsertAll(EmptySlots(capacity), Flatten(slots[..0])) == EmptySlots(capacity)
    ensures |Flatten(slots[..0])| == 0
  {
    assert slots[..0] == [];
  }

  /** After the resize loop: every slot done, the new table is the rehash and keeps the invariant. */
  lemma RehashEnd(slots: seq<Slot>, size: int, capacity: int)
    requires TableInv(slots, size) && capacity > 0
    ensures InsertAll(EmptySlots(capacity), Flatten(slots[..|slots|])) == Rehash(slots, capacity)
    ensures TableInv(Rehash(slots, capacity), size)
  {
    assert slots[..|slots|] == slots;
    RehashInv(slots, size, capacity);
  }

  /** Giving a slot an emptied chain keeps the invariant. */
  lemma EnsureInv(slots: seq<Slot>, size: int, i: int)
    requires TableInv(slots, size) && 0 <= i < |slots|
    ensures TableInv(Ensure(slots, i), size)
  {
    if slots[i] == None {
      FillSlot(slots, size, i);
    }
  }

  /**
   * `add` of a new key without a resize, as the table does it: make sure the key's slot
   * has a chain, then prepend the key to it.
   */
  lemma AddInPlace(slots: seq<Slot>, size: int, x: string)
    requires TableInv(slots, size) && x !in KeySet(slots) && size < 2 * |slots|
    ensures var i := SlotIndex(x, |slots|);
            var e := Ensure(slots, i);
            e[i := Some([x] + ChainOf(e[i]))] == AddSlots(slots, size, x)
  {
    MemberAtIndex(slots, x);
    var i := SlotIndex(x, |slots|);
    var e := Ensure(slots, i);
    assert e[i := Some([x] + ChainOf(e[i]))] == slots[i := Some([x] + ChainOf(slots[i]))];
  }

  /**
   * `add` of a new key with a resize, as the table does it: make sure the key's old slot
   * has a chain, rehash into twice the slots, make sure the key's new slot has a chain,
   * then prepend the key to it, which does not hold it yet.
   */
  lemma AddAfterGrow(slots: seq<Slot>, size: int, x: string)
    requires TableInv(slots, size) && x !in KeySet(slots) && size >= 2 * |slots|
    ensures var g := Rehash(Ensure(slots, SlotIndex(x, |slots|)), 2 * |slots|);
            var i := SlotIndex(x, |g|);
            var e := Ensure(g, i);
            x !in ChainOf(e[i]) && e[i := Some([x] + ChainOf(e[i]))] == AddSlots(slots, size, x)
  {
    var i0 := SlotIndex(x, |slots|);
    if slots[i0] == None {
      RehashFilled(slots, i0, 2 * |slots|);
    }
    AddGrows(slots, size, x);
    RehashAbsent(slots, size, x);
    PrependEnsured(Rehash(slots, 2 * |slots|), x);
  }

  /** At a full table `add` of a new key is an insertion into the rehash at twice the slots. */
  lemma AddGrows(slots: seq<Slot>, size: int, x: string)
    requires TableInv(slots, size) && x !in KeySet(slots) && size >= 2 * |slots|
    ensures AddSlots(slots, size, x) == InsertKey(Rehash(slots, 2 * |slots|), x)
  {
    MemberAtIndex(slots, x);
  }

  /** A key that is no member is missing from its slot's chain after a resize as well. */
  lemma RehashAbsent(slots: seq<Slot>, size: int, x: string)
    requires TableInv(slots, size) && x !in KeySet(slots)
    ensures var g := Rehash(slots, 2 * |slots|); x !in ChainOf(g[SlotIndex(x, |g|)])
  {
    RehashSpec(slots, size, 2 * |slots|);
    MemberAtIndex(Rehash(slots, 2 * |slots|), x);
  }

  /** Giving the key's slot a chain and then prepending the key is the insertion of a new key. */
  lemma PrependEnsured(g: seq<Slot>, x: string)
    requires |g| > 0 && x !in ChainOf(g[SlotIndex(x, |g|)])
    ensures var i := SlotIndex(x, |g|);
            var e := Ensure(g, i);
            x !in ChainOf(e[i]) && e[i := Some([x] + ChainOf(e[i]))] == InsertKey(g, x)
  {
    var i := SlotIndex(x, |g|);
    var e := Ensure(g, i);
    assert e[i := Some([x] + ChainOf(e[i]))] == g[i := Some([x] + ChainOf(g[i]))];
  }

  /** The resize keeps every key, the count and the invariant, in a table of the new capacity. */
  lemma RehashSpec(slots: seq<Slot>, size: int, capacity: int)
    requires TableInv(slots, size) && capacity > 0
    ensures KeySet(Rehash(slots, capacity)) == KeySet(slots)
    ensures TableInv(Rehash(slots, capacity), size)
  {
    EmptyTable(capacity);
    InsertAllSpec(EmptySlots(capacity), 0, Flatten(slots));
    RehashInv(slots, size, capacity);
  }

  /**
   * The table's `add`: the key is a member afterwards and every earlier member remains;
   * the count grows by one exactly for a new key; a present key changes nothing; the
   * capacity doubles exactly when a new key meets a full table.
   */
  lemma AddSlotsSpec(slots: seq<Slot>, size: int, x: string)
    requires TableInv(slots, size)
    ensures KeySet(AddSlots(slots, size, x)) == KeySet(slots) + {x}
    ensures TableInv(AddSlots(slots, size, x), if x in KeySet(slots) then size else size + 1)
    ensures x in KeySet(slots) ==> AddSlots(slots, size, x) == slots
    ensures |AddSlots(slots, size, x)| ==
              if x !in KeySet(slots) && size >= 2 * |slots| then 2 * |slots| else |slots|
  {
    MemberAtIndex(slots, x);
    if x !in KeySet(slots) && size >= 2 * |slots| {
      var big := Rehash(slots, 2 * |slots|);
      RehashSpec(slots, size, 2 * |slots|);
      InsertKeySpec(big, size, x);
    } else {
      InsertKeySpec(slots, size, x);
    }
  }

  /** The table's `remove`: the key leaves the set, the count drops by one exactly when it was a member. */
  lemma RemoveSlotsSpec(slots: seq<Slot>, size: int, x: string)
    requires TableInv(slots, size)
    ensures KeySet(RemoveSlots(slots, x)) == KeySet(slots) - {x}
    ensures TableInv(RemoveSlots(slots, x), if x in KeySet(slots) then size - 1 else size)
    ensures x !in KeySet(slots) ==> RemoveSlots(slots, x) == slots
  {
    MemberAtIndex(slots, x);
    var i := SlotIndex(x, |slots|);
    var c := ChainOf(slots[i]);
    if x in c {
      RemoveFromChain(slots, size, i, x);
    } else if c != [] {
      RemoveFirstAbsent(c, x);
      assert slots[i := Some(RemoveFirst(c, x))] == slots;
    }
  }

  /** Removing a key from a chain keeps the invariant; the count drops by one when the chain held it. */
  lemma ChainRemoved(slots: seq<Slot>, size: int, i: int, x: string)
    requires TableInv(slots, size) && 0 <= i < |slots|
    ensures TableInv(slots[i := Some(RemoveFirst(ChainOf(slots[i]), x))],
                     if x in ChainOf(slots[i]) then size - 1 else size)
  {
    var c := ChainOf(slots[i]);
    var v := Some(RemoveFirst(c, x));
    RemoveFirstCounts(c, x);
    RemoveFirstDistinct(c, x);
    forall y | y in ChainOf(v) ensures SlotIndex(y, |slots|) == i {
      ChainPlaced(slots, i, y);
    }
    UpdateSlotInv(slots, size, i, v);
  }

  /** Removing a key from the chain of its own slot, where it is present. */
  lemma RemoveFromChain(slots: seq<Slot>, size: int, i: int, x: string)
    requires TableInv(slots, size) && 0 <= i < |slots| && x in ChainOf(slots[i])
    ensures KeySet(slots[i := Some(RemoveFirst(ChainOf(slots[i]), x))]) == KeySet(slots) - {x}
    ensures TableInv(slots[i := Some(RemoveFirst(ChainOf(slots[i]), x))], size - 1)
  {
    var c := ChainOf(slots[i]);
    var v := Some(RemoveFirst(c, x));
    RemoveFirstCounts(c, x);
    RemoveFirstDistinct(c, x);
    forall y | y in ChainOf(v) ensures SlotIndex(y, |slots|) == i {
      ChainPlaced(slots, i, y);
    }
    ChainPlaced(slots, i, x);
    UpdateSlot(slots, size, i, v);
    forall y ensures y in KeySet(slots[i := v]) <==> y in KeySet(slots) && y != x {
      MemberAtIndex(slots, y);
    }
  }

  /** The table's `contains` reorders one chain but keeps the members, the count and the invariant. */
  lemma ContainsSlotsSpec(slots: seq<Slot>, size: int, x: string)
    requires TableInv(slots, size)
    ensures KeySet(ContainsSlots(slots, x)) == KeySet(slots)
    ensures TableInv(ContainsSlots(slots, x), size)
    ensures x !in KeySet(slots) ==> ContainsSlots(slots, x) == slots
  {
    MemberAtIndex(slots, x);
    var i := SlotIndex(x, |slots|);
    var c := ChainOf(slots[i]);
    if x in c {
      ReorderChain(slots, size, i, x);
    } else if c != [] {
      MoveToFrontSpec(c, x);
      assert slots[i := Some(ChainSpec.MoveToFront(c, x))] == slots;
    }
  }

  /** Moving a key to the front of one chain keeps the members, the count and the invariant. */
  lemma ReorderChain(slots: seq<Slot>, size: int, i: int, x: string)
    requires TableInv(slots, size) && 0 <= i < |slots|
    ensures KeySet(slots[i := Some(ChainSpec.MoveToFront(ChainOf(slots[i]), x))]) == KeySet(slots)
    ensures TableInv(slots[i := Some(ChainSpec.MoveToFront(ChainOf(slots[i]), x))], size)
  {
    var c := ChainOf(slots[i]);
    var v := Some(ChainSpec.MoveToFront(c, x));
    MoveToFrontDistinct(c, x);
    MoveToFrontSpec(c, x);
    assert |ChainOf(v)| == |c| by {
      assert |multiset(ChainOf(v))| == |multiset(c)|;
    }
    forall y | y in ChainOf(v) ensures SlotIndex(y, |slots|) == i {
      ChainPlaced(slots, i, y);
    }
    UpdateSlot(slots, size, i, v);
    forall y ensures y in KeySet(slots[i := v]) <==> y in KeySet(slots) {
      MemberAtIndex(slots, y);
    }
  }

  /**
   * Iterating the table visits exactly its members: as many keys as `size`, none twice,
   * and the number of distinct members equals `size`.
   */
  lemma IterationCoversTable(slots: seq<Slot>, size: int)
    requires TableInv(slots, size)
    ensures |Flatten(slots)| == size && |KeySet(slots)| == size
    ensures Distinct(Flatten(slots))
  {
    FlattenDistinct(slots);
    DistinctCount(Flatten(slots));
  }

  // ---------------------------------------------------------------------------
  // Iteration order

  /** The keys the set iterator still visits in the slots from `k` on. */
  function After(slots: seq<Slot>, k: nat): seq<string>
    decreases |slots| - k
  {
    if k >= |slots| then [] else ChainOf(slots[k]) + After(slots, k + 1)
  }

  /** Taking the first key of a chain followed by more keys. */
  lemma TakeFirst(chain: seq<string>, rest: seq<string>)
    requires chain != []
    ensures (chain + rest)[0] == chain[0] && (chain + rest)[1..] == chain[1..] + rest
  {
    assert (chain + rest)[1..] == chain[1..] + rest;
  }

  /** The keys after slot `k` start with slot `k`'s chain. */
  lemma AfterUnfold(slots: seq<Slot>, k: nat)
    requires k < |slots|
    ensures After(slots, k) == ChainOf(slots[k]) + After(slots, k + 1)
  {
  }

  /** The keys from slot `k` on are those of the slots after dropping the first `k`. */

  lemma {:induction false} AfterIsSuffix(slots: seq<Slot>, k: nat)
    requires k <= |slots|
    ensures After(slots, k) == Flatten(slots[k..])
    decreases |slots| - k
  {
    if k < |slots| {
      AfterIsSuffix(slots, k + 1);
      assert slots[k..][1..] == slots[k + 1..];
    } else {
      assert slots[k..] == [];
    }
  }

  /**
   * A fresh set iterator visits exactly the members: every key once, as many keys as
   * `size`, slot by slot and each chain head to tail.
   */
  lemma IterationFromStart(slots: seq<Slot>, size: int)
    requires TableInv(slots, size)
    ensures After(slots, 0) == Flatten(slots)
    ensures (set x | x in After(slots, 0)) == KeySet(slots)
    ensures |After(slots, 0)| == size && Distinct(After(slots, 0))
  {
    AfterIsSuffix(slots, 0);
    assert slots[0..] == slots;
    IterationCoversTable(slots, size);
  }

  /**
   * The scan of `hasNext` and `next`: the first slot from `k` on whose chain has a head key;
   * when there is none, `|slots|`, or `k` itself if that is already past the end.
   */
  function FirstChain(slots: seq<Slot>, k: nat): (r: nat)
    ensures k <= r && (r < |slots| ==> ChainOf(slots[r]) != [])
    decreases |slots| - k
  {
    if k >= |slots| || ChainOf(slots[k]) != [] then k else FirstChain(slots, k + 1)
  }

  /** The scan skips only slots without keys: what remains from `k` on starts at the slot it finds. */
  lemma {:induction false} FirstChainAfter(slots: seq<Slot>, k: nat)
    ensures FirstChain(slots, k) >= |slots| ==> After(slots, k) == []
    ensures FirstChain(slots, k) < |slots| ==>
              After(slots, k) == ChainOf(slots[FirstChain(slots, k)]) + After(slots, FirstChain(slots, k) + 1)
    decreases |slots| - k
  {
    if k < |slots| {
      if ChainOf(slots[k]) == [] {
        FirstChainAfter(slots, k + 1);
        assert FirstChain(slots, k) == FirstChain(slots, k + 1);
        assert After(slots, k) == After(slots, k + 1) by {
          assert [] + After(slots, k + 1) == After(slots, k + 1);
        }
      }
    }
  }
}
