/**
 * Three places where the table as written throws instead of doing what its documentation
 * promises. Each is stated here as the code behaves, with an input that shows it and the
 * agreement with the corrected model everywhere else; the classes model the corrected
 * behaviour.
 */
module AsWritten {
  import opened Wrappers
  import opened ChainSpec
  import opened StringHash
  import opened Buckets

  /** The exceptions these paths end in. */
  datatype JavaException = NullPointerException | ArrayIndexOutOfBoundsException | NoSuchElementException

  /** A call that returns a value or throws. */
  datatype Outcome<+T> = Returns(value: T) | Throws(exception: JavaException)

  // ---------------------------------------------------------------------------
  // `contains` and `remove` on an emptied chain

  /**
   * The lookup `contains` and `remove` start with, as written: a null slot answers false,
   * and otherwise `Node.remove` compares the head's data, which an emptied chain has
   * set to null.
   */
  function LookupAsWritten(slots: seq<Slot>, x: string): Outcome<bool>
    requires |slots| > 0
  {
    match slots[SlotIndex(x, |slots|)]
    case None => Returns(false)
    case Some(chain) => if chain == [] then Throws(NullPointerException) else Returns(x in chain)
  }

  /** Where the lookup as written returns, it answers membership; it throws exactly at an emptied chain. */
  lemma LookupAsWrittenAgrees(slots: seq<Slot>, size: int, x: string)
    requires TableInv(slots, size)
    ensures LookupAsWritten(slots, x).Throws? <==> slots[SlotIndex(x, |slots|)] == Some([])
    ensures LookupAsWritten(slots, x).Returns? ==> LookupAsWritten(slots, x).value == (x in KeySet(slots))
  {
    MemberAtIndex(slots, x);
  }

  /** Add "a" to a new set, remove it, and look it up again: the code as written throws. */
  lemma LookupAfterRemoveThrows()
    ensures var slots := RemoveSlots(InsertKey(EmptySlots(5), "a"), "a");
            TableInv(slots, 0) && "a" !in KeySet(slots) &&
            LookupAsWritten(slots, "a") == Throws(NullPointerException)
  {
    assert "a"[..0] == [];
    assert Poly("a") == 97;
    SlotIndexOfPoly("a", 5);
    var one := InsertKey(EmptySlots(5), "a");
    assert EmptySlots(5)[2] == None && ["a"] + [] == ["a"];
    assert one == EmptySlots(5)[2 := Some(["a"])];
    EmptyTable(5);
    InsertKeySpec(EmptySlots(5), 0, "a");
    RemoveSlotsSpec(one, 1, "a");
    assert ["a"][1..] == [];
  }

  // ---------------------------------------------------------------------------
  // The resize

  /**
   * The rehash as written: iterating an emptied chain yields its null head, and adding
   * null throws in `stringHashCode`.
   */
  function RehashAsWritten(slots: seq<Slot>, capacity: int): Outcome<seq<Slot>>
    requires capacity > 0
  {
    if exists i :: 0 <= i < |slots| && slots[i] == Some([]) then Throws(NullPointerException)
    else Returns(Rehash(slots, capacity))
  }

  /**
   * `add` as written: the key's slot gets a chain before the lookup, so a resize always
   * meets at least that emptied chain when the key's slot was null.
   */
  function AddAsWritten(slots: seq<Slot>, size: int, x: string): Outcome<seq<Slot>>
    requires |slots| > 0
  {
    var e := Ensure(slots, SlotIndex(x, |slots|));
    var i := SlotIndex(x, |slots|);
    if x in ChainOf(e[i]) then Returns(e)
    else if size >= 2 * |slots| then
      match RehashAsWritten(e, 2 * |slots|)
      case Throws(ex) => Throws(ex)
      case Returns(g) =>
        var j := SlotIndex(x, |g|);
        Returns(Ensure(g, j)[j := Some([x] + ChainOf(g[j]))])
    else Returns(e[i := Some([x] + ChainOf(e[i]))])
  }

  /**
   * Where `add` as written returns, it leaves the table the model's `add` does; it
   * throws exactly when a resize meets an emptied chain, which includes every resize
   * whose new key's slot was null.
   */
  lemma AddAsWrittenAgrees(slots: seq<Slot>, size: int, x: string)
    requires TableInv(slots, size)
    ensures AddAsWritten(slots, size, x).Returns? ==> AddAsWritten(slots, size, x).value == AddSlots(slots, size, x)
    ensures x !in KeySet(slots) && size >= 2 * |slots| && slots[SlotIndex(x, |slots|)] == None ==>
              AddAsWritten(slots, size, x).Throws?
  {
    var i := SlotIndex(x, |slots|);
    MemberAtIndex(slots, x);
    if x !in KeySet(slots) {
      if size >= 2 * |slots| {
        var e := Ensure(slots, i);
        if slots[i] == None {
          assert e[i] == Some([]);
        }
        if RehashAsWritten(e, 2 * |slots|).Returns? {
          AddAfterGrow(slots, size, x);
        }
      } else {
        AddInPlace(slots, size, x);
      }
    } else {
      assert Ensure(slots, i) == slots;
    }
  }

  /** "b", "d", "f" and "h" all have even hashes, so a table of two slots keeps them in slot 0; "a" goes to slot 1. */
  lemma FullSmallTable()
    ensures TableInv([Some(["h", "f", "d", "b"]), None], 4)
    ensures "a" !in KeySet([Some(["h", "f", "d", "b"]), None]) && SlotIndex("a", 2) == 1
  {
    var slots := [Some(["h", "f", "d", "b"]), None];
    var chain := ["h", "f", "d", "b"];
    SmallHashes();
    assert forall j :: 0 <= j < |chain| ==> SlotIndex(chain[j], 2) == 0;
    assert Distinct(chain) by {
      assert Distinct(["b"]);
      DistinctCons("d", ["b"]);
      assert ["d"] + ["b"] == ["d", "b"];
      DistinctCons("f", ["d", "b"]);
      assert ["f"] + ["d", "b"] == ["f", "d", "b"];
      DistinctCons("h", ["f", "d", "b"]);
      assert ["h"] + ["f", "d", "b"] == chain;
    }
    assert Flatten(slots) == chain by {
      assert slots[1..][1..] == [];
    }
  }

  /** The slots of the one-letter keys in a table of two slots: their codes' parity. */
  lemma SmallHashes()
    ensures SlotIndex("a", 2) == 1 && SlotIndex("b", 2) == 0 && SlotIndex("d", 2) == 0
    ensures SlotIndex("f", 2) == 0 && SlotIndex("h", 2) == 0
  {
    assert "a"[..0] == [] && "b"[..0] == [] && "d"[..0] == [] && "f"[..0] == [] && "h"[..0] == [];
    assert Poly("a") == 97 && Poly("b") == 98 && Poly("d") == 100 && Poly("f") == 102 && Poly("h") == 104;
    SlotIndexOfPoly("a", 2);
    SlotIndexOfPoly("b", 2);
    SlotIndexOfPoly("d", 2);
    SlotIndexOfPoly("f", 2);
    SlotIndexOfPoly("h", 2);
  }

  /**
   * A set of capacity 2 holding "b", "d", "f" and "h" is full; adding "a", whose slot is
   * null, resizes, and the code as written throws.
   */
  lemma ResizeThrows()
    ensures var slots := [Some(["h", "f", "d", "b"]), None];
            TableInv(slots, 4) && "a" !in KeySet(slots) &&
            AddAsWritten(slots, 4, "a") == Throws(NullPointerException)
  {
    FullSmallTable();
    var slots := [Some(["h", "f", "d", "b"]), None];
    assert Ensure(slots, 1)[1] == Some([]);
  }

  // ---------------------------------------------------------------------------
  // The set iterator's first `next` on an empty set

  /**
   * `next` as written (with the modification count unchanged): the rest of the current
   * chain first; when it is used up and nothing remains, `NoSuchElementException`; but
   * before the first chain `index` is still -1 and an empty scan indexes the array there.
   */
  function NextAsWritten(slots: seq<Slot>, index: int, iter: Option<seq<string>>): Outcome<string>
    requires index >= -1
  {
    if iter.Some? && iter.value != [] then Returns(iter.value[0])
    else
      var k := FirstChain(slots, index + 1);
      if k < |slots| then Returns(ChainOf(slots[k])[0])
      else if iter.Some? then Throws(NoSuchElementException)
      else Throws(ArrayIndexOutOfBoundsException)
  }

  /**
   * `next` as written returns the first remaining key when there is one; with none left
   * it throws `NoSuchElementException` only once a chain has been walked.
   */
  lemma NextAsWrittenAgrees(slots: seq<Slot>, index: int, iter: Option<seq<string>>)
    requires index >= -1
    ensures var rest := (if iter.Some? then iter.value else []) + After(slots, index + 1);
            (rest != [] ==> NextAsWritten(slots, index, iter) == Returns(rest[0])) &&
            (rest == [] && iter.Some? ==> NextAsWritten(slots, index, iter) == Throws(NoSuchElementException)) &&
            (rest == [] && iter.None? ==> NextAsWritten(slots, index, iter) == Throws(ArrayIndexOutOfBoundsException))
  {
    FirstChainAfter(slots, index + 1);
  }

  /** The first `next` on a new, empty set throws out of bounds instead of `NoSuchElementException`. */
  lemma EmptySetNextThrows()
    ensures NextAsWritten(EmptySlots(5), -1, None) == Throws(ArrayIndexOutOfBoundsException)
  {
    assert After(EmptySlots(5), 0) == [] by {
      AfterIsSuffix(EmptySlots(5), 0);
      FlattenEmpty(5);
      assert EmptySlots(5)[0..] == EmptySlots(5);
    }
  }
}
