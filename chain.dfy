/**
 * The bucket chain `StringHashSet.Node`: a singly linked list edited in place. The head
 * node of an empty chain holds no key (`data == None`) and has no successor; every other
 * node holds a key. `Contents` is the sequence of keys from head to tail.
 */
module Chain {
  import opened Wrappers
  import opened ChainSpec

  class Node {
    var data: Option<string>
    var next: Node?

    ghost var Contents: seq<string>
    ghost var Repr: set<object>

    ghost predicate Valid()
      reads this, Repr
      decreases Repr
    {
      this in Repr &&
      (data.None? ==> next == null) &&
      (next != null ==>
         next in Repr && next.Repr <= Repr && this !in next.Repr &&
         next.Valid() && next.data.Some?) &&
      Contents == (if data.None? then [] else [data.value]) + (if next == null then [] else next.Contents)
    }

    /** Only an empty chain has a head without a key. */
    lemma EmptyIffNoData()
      requires Valid()
      ensures data.None? <==> Contents == []
      ensures data.Some? ==> Contents[0] == data.value
    {
    }

    /** `Node()`: the empty chain. */
    constructor ()
      ensures Valid() && fresh(Repr)
      ensures Contents == [] && data == None && next == null
    {
      data := None;
      next := null;
      Contents := [];
      Repr := {this};
    }

    /** `Node(data)`: a chain of one key. */
    constructor Init(data: string)
      ensures Valid() && fresh(Repr)
      ensures Contents == [data] && this.data == Some(data) && next == null
    {
      this.data := Some(data);
      next := null;
      Contents := [data];
      Repr := {this};
    }

    /** `add`: the new key becomes the head; the old head value moves into a fresh second node. */
    method Add(item: string) returns (r: bool)
      requires Valid()
      modifies this
      ensures Valid() && fresh(Repr - old(Repr))
      ensures r
      ensures Contents == [item] + old(Contents)
    {
      if data.None? {
        data := Some(item);
        Contents := [item];
      } else {
        var node := new Node.Init(data.value);
        node.next := next;
        if next != null {
          node.Contents := node.Contents + next.Contents;
          node.Repr := node.Repr + next.Repr;
        }
        next := node;
        data := Some(item);
        Contents := [item] + Contents;
        Repr := Repr + node.Repr;
      }
      r := true;
    }

    /**
     * `remove`: splice out the first node holding `item`. A match at the head pulls the
     * successor's key and link up; a later match relinks its predecessor's `next`.
     * The source reads the head's key unconditionally, so the chain must not be empty.
     */
    method Remove(item: string) returns (r: bool)
      requires Valid() && data.Some?
      modifies Repr
      decreases Repr
      ensures Valid() && Repr == old(Repr)
      ensures r == (item in old(Contents))
      ensures Contents == RemoveFirst(old(Contents), item)
    {
      if data.value == item {
        if next != null {
          data := next.data;
          next := next.next;
        } else {
          data := None;
          next := null;
        }
        Contents := Contents[1..];
        r := true;
      } else if next != null {
        if next.data.value == item {
          next.EmptyIffNoData();
          next := next.next;
          Contents := [data.value] + (if next == null then [] else next.Contents);
          r := true;
        } else {
          next.EmptyIffNoData();
          r := next.Remove(item);
          next.EmptyIffNoData();
          Contents := [data.value] + next.Contents;
        }
      } else {
        r := false;
      }
    }

    /** `pop`: remove the head key and return it. */
    method Pop() returns (d: string)
      requires Valid() && data.Some?
      modifies Repr
      ensures Valid() && Repr == old(Repr)
      ensures [d] + Contents == old(Contents)
    {
      EmptyIffNoData();
      d := data.value;
      var _ := Remove(d);
    }

    /** `get`: whether `item` is in the chain; an empty chain answers false at once. */
    function Get(item: string): (r: bool)
      reads Repr
      requires Valid()
      decreases Repr
      ensures r <==> item in Contents
    {
      if data.None? then false
      else if data.value == item then true
      else next != null && next.Get(item)
    }

    /** `moveToFront`: `remove(item) && add(item)`. */
    method MoveToFront(item: string) returns (r: bool)
      requires Valid() && data.Some?
      modifies Repr
      ensures Valid() && fresh(Repr - old(Repr))
      ensures r == (item in old(Contents))
      ensures Contents == ChainSpec.MoveToFront(old(Contents), item)
    {
      ghost var before := Contents;
      r := Remove(item);
      if r {
        r := Add(item);
      } else {
        RemoveFirstAbsent(before, item);
      }
    }

    /** `toString`: the keys joined by ", " from head to tail; the empty chain gives "null". */
    function ToString(): (s: string)
      reads Repr
      requires Valid()
      decreases Repr
      ensures s == Render(Contents)
    {
      (if data.None? then "null" else data.value) + (if next != null then ", " + next.ToString() else "")
    }

    /** The data values `NodeIterator` yields, node by node: the keys, or the single null of an empty head. */
    ghost function Raw(): seq<Option<string>>
      reads Repr
      requires Valid()
      decreases Repr
    {
      [data] + (if next == null then [] else next.Raw())
    }

    /** The iterator yields at least one value, and its present values are exactly the keys. */
    lemma {:induction false} RawKeys()
      requires Valid()
      ensures Raw() != [] && Somes(Raw()) == Contents
      decreases Repr
    {
      var rest := if next == null then [] else next.Raw();
      if next != null {
        next.RawKeys();
      }
      SomesAppend([data], rest);
      assert [data][..0] == [];
    }

    /** The values the node iterator yields are the chain's `NodeData`. */
    lemma {:induction false} RawData()
      requires Valid()
      ensures Raw() == NodeData(Contents)
      decreases Repr
    {
      if next != null {
        next.RawData();
        var r := NodeData(Contents);
        assert Raw() == [data] + next.Raw();
        forall k | 0 <= k < |r| ensures r[k] == Raw()[k] {
          if k > 0 {
            assert Contents[k] == next.Contents[k - 1];
          }
        }
      }
    }
  }

  /** `Node.NodeIterator`: a cursor that walks the nodes from the head, yielding each one's data. */
  class NodeIterator {
    var node: Node?
    ghost var Remaining: seq<Option<string>>
    /** The nodes of the chain being walked. */
    ghost const Over: set<object>

    ghost predicate Valid()
      reads this, Over
    {
      (node == null ==> Remaining == []) &&
      (node != null ==>
         node in Over && node.Repr <= Over && this !in Over &&
         node.Valid() && Remaining == node.Raw())
    }

    constructor (head: Node)
      requires head.Valid()
      ensures Valid() && node == head && Remaining == head.Raw() && Over == head.Repr
    {
      node := head;
      Remaining := head.Raw();
      Over := head.Repr;
    }

    /** `hasNext`: a node is left to visit. */
    function HasNext(): (r: bool)
      reads this, Over
      requires Valid()
      ensures r <==> Remaining != []
    {
      if node != null then node.EmptyIffNoData(); true else false
    }

    /** `next`: the current node's data, then step to its successor; past the end it throws. */
    method Next() returns (r: Result<Option<string>>)
      requires Valid()
      modifies this
      ensures Valid()
      ensures old(Remaining) == [] ==> r == Err(NoSuchElement) && Remaining == []
      ensures old(Remaining) != [] ==> r == Ok(old(Remaining)[0]) && Remaining == old(Remaining)[1..]
    {
      if node == null {
        return Err(NoSuchElement);
      }
      node.EmptyIffNoData();
      r := Ok(node.data);
      node := node.next;
      Remaining := Remaining[1..];
    }
  }

  /**
   * The chain of the node tests: five keys added in turn to an empty chain, which then
   * lists them last-added first (the tests add "five", "four", "three", "two", "one").
   */
  method Populate(a: string, b: string, c: string, d: string, e: string) returns (numbers: Node, text: string)
    ensures numbers.Valid() && fresh(numbers.Repr) && numbers.Contents == [e, d, c, b, a]
    ensures text == Render([e, d, c, b, a])
  {
    numbers := new Node();
    var added := numbers.Add(a);
    assert fresh(numbers.Repr);
    added := numbers.Add(b);
    assert fresh(numbers.Repr);
    added := numbers.Add(c);
    assert fresh(numbers.Repr);
    added := numbers.Add(d);
    assert fresh(numbers.Repr);
    added := numbers.Add(e);
    Prepended(a, b, c, d, e);
    text := numbers.ToString();
  }

  /** Five keys prepended in turn to the empty chain, written out. */
  lemma Prepended(a: string, b: string, c: string, d: string, e: string)
    ensures [e] + ([d] + ([c] + ([b] + ([a] + [])))) == [e, d, c, b, a]
  {
    assert [a] + [] == [a];
    assert [b] + [a] == [b, a];
    assert [c] + [b, a] == [c, b, a];
    assert [d] + [c, b, a] == [d, c, b, a];
  }

  /** The keys of the node tests joined by `", "`. */
  lemma JoinNumbers()
    ensures Render(["one", "two", "three", "four", "five"]) == "one, two, three, four, five"
  {
    var s := ["one", "two", "three", "four", "five"];
    calc {
      Render(s);
      "one" + ", " + Join(s[1..]);
      { assert s[1..] == ["two", "three", "four", "five"]; }
      "one" + ", " + ("two" + ", " + Join(s[2..]));
      { assert s[2..] == ["three", "four", "five"]; }
      "one" + ", " + ("two" + ", " + ("three" + ", " + Join(s[3..])));
      { assert s[3..] == ["four", "five"] && s[4..] == ["five"]; }
      "one" + ", " + ("two" + ", " + ("three" + ", " + ("four" + ", " + "five")));
    }
  }

  /** Rendering a chain of two or more keys: the head, a comma, then the rest. */
  lemma RenderCons(x: string, s: seq<string>)
    requires s != []
    ensures Render([x] + s) == x + ", " + Render(s)
  {
    assert ([x] + s)[1..] == s;
  }

  /** The four keys left by the removal and pop tests, rendered. */
  lemma RenderFour(a: string, b: string, c: string, d: string)
    ensures Render([a, b, c, d]) == a + ", " + b + ", " + c + ", " + d
  {
    RenderCons(c, [d]);
    RenderCons(b, [c, d]);
    RenderCons(a, [b, c, d]);
    assert [a] + [b, c, d] == [a, b, c, d];
    assert [b] + [c, d] == [b, c, d];
    assert [c] + [d] == [c, d];
  }

  /** Removing "three" from the numbers chain keeps the other four keys in order. */
  lemma RemoveThreeKeys()
    ensures "three" in ["one", "two", "three", "four", "five"]
    ensures RemoveFirst(["one", "two", "three", "four", "five"], "three") == ["one", "two", "four", "five"]
  {
    var s := ["one", "two", "three", "four", "five"];
    assert s[2] == "three";
    calc {
      RemoveFirst(s, "three");
      { assert s[1..] == ["two", "three", "four", "five"]; }
      ["one"] + RemoveFirst(["two", "three", "four", "five"], "three");
      { assert ["two", "three", "four", "five"][1..] == ["three", "four", "five"]; }
      ["one"] + (["two"] + RemoveFirst(["three", "four", "five"], "three"));
      { assert ["three", "four", "five"][1..] == ["four", "five"]; }
      ["one", "two", "four", "five"];
    }
  }

  /** Moving "three" to the front of the numbers chain puts it ahead of "one" and "two". */
  lemma MoveThreeKeys()
    ensures MoveToFront(["one", "two", "three", "four", "five"], "three") == ["three", "one", "two", "four", "five"]
  {
    RemoveThreeKeys();
    assert ["three"] + ["one", "two", "four", "five"] == ["three", "one", "two", "four", "five"];
  }

  /** Moving the head "one" of the numbers chain to the front leaves the chain as it was. */
  lemma MoveHeadKeys()
    ensures "one" in ["one", "two", "three", "four", "five"]
    ensures MoveToFront(["one", "two", "three", "four", "five"], "one") == ["one", "two", "three", "four", "five"]
  {
    MoveToFrontSpec(["one", "two", "three", "four", "five"], "one");
  }

  /** What `toString` prints after the removal test's first step. */
  lemma RemovedText()
    ensures Render(["one", "two", "four", "five"]) == "one, two, four, five"
  {
    RenderFour("one", "two", "four", "five");
  }

  /** What `toString` prints after the pop test's first step. */
  lemma PoppedText()
    ensures Render(["two", "three", "four", "five"]) == "two, three, four, five"
  {
    RenderFour("two", "three", "four", "five");
  }

  /** What `toString` prints after the move-to-front test's second step. */
  lemma MovedText()
    ensures Render(["three", "one", "two", "four", "five"]) == "three, one, two, four, five"
  {
    calc {
      Render(["three", "one", "two", "four", "five"]);
      { RenderCons("three", ["one", "two", "four", "five"]);
        assert ["three"] + ["one", "two", "four", "five"] == ["three", "one", "two", "four", "five"];
        RemovedText(); }
      "three" + ", " + "one, two, four, five";
    }
  }

  /** The removal test: "three" leaves the middle of the numbers chain. */
  method RemoveThree() returns (removed: bool, text: string)
    ensures removed && text == "one, two, four, five"
  {
    var numbers, _ := Populate("five", "four", "three", "two", "one");
    numbers.EmptyIffNoData();
    removed := numbers.Remove("three");
    text := numbers.ToString();
    RemoveThreeKeys();
    RemovedText();
  }

  /** The pop test: the head key comes off first and the rest still print in order. */
  method PopOne() returns (popped: string, text: string)
    ensures popped == "one" && text == "two, three, four, five"
  {
    var numbers, _ := Populate("five", "four", "three", "two", "one");
    numbers.EmptyIffNoData();
    popped := numbers.Pop();
    text := numbers.ToString();
    PoppedText();
  }

  /**
   * The move-to-front test: moving the head "one" changes nothing, then "three" jumps ahead
   * of "one" and "two" and the rest keep their order.
   */
  method MoveThree() returns (movedHead: bool, moved: bool, text: string)
    ensures movedHead && moved && text == "three, one, two, four, five"
  {
    var numbers, _ := Populate("five", "four", "three", "two", "one");
    numbers.EmptyIffNoData();
    MoveHeadKeys();
    movedHead := numbers.MoveToFront("one");
    assert fresh(numbers.Repr);
    numbers.EmptyIffNoData();
    moved := numbers.MoveToFront("three");
    text := numbers.ToString();
    RemoveThreeKeys();
    MoveThreeKeys();
    MovedText();
  }
}
