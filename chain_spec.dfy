/**
 * What a bucket chain holds, as a sequence of keys from head to tail, and the
 * sequence-level meaning of the chain operations: removing the first occurrence,
 * moving a key to the front, and the `", "`-joined rendering.
 */
module ChainSpec {
  import opened Wrappers

  /** The position of the first occurrence of `x` in `s`. */
  function FirstIndex(s: seq<string>, x: string): (i: nat)
    requires x in s
    ensures i < |s| && s[i] == x && x !in s[..i]
  {
    if s[0] == x then 0
    else
      var j := FirstIndex(s[1..], x);
      assert s[..j + 1] == [s[0]] + s[1..][..j];
      j + 1
  }

  /** The chain after `Node.remove(x)`: the first occurrence of `x` spliced out. */
  function RemoveFirst(s: seq<string>, x: string): seq<string> {
    if s == [] then []
    else if s[0] == x then s[1..]
    else [s[0]] + RemoveFirst(s[1..], x)
  }

  /** Removal deletes exactly the first occurrence of a present key and nothing else. */
  lemma {:induction false} RemoveFirstAt(s: seq<string>, x: string)
    requires x in s
    ensures RemoveFirst(s, x) == s[..FirstIndex(s, x)] + s[FirstIndex(s, x) + 1..]
  {
    if s[0] != x {
      RemoveFirstAt(s[1..], x);
      var j := FirstIndex(s[1..], x);
      assert s[..j + 1] == [s[0]] + s[1..][..j];
      assert s[j + 2..] == s[1..][j + 1..];
    }
  }

  /** Removing an absent key leaves the chain as it was. */
  lemma {:induction false} RemoveFirstAbsent(s: seq<string>, x: string)
    requires x !in s
    ensures RemoveFirst(s, x) == s
  {
    if s != [] {
      RemoveFirstAbsent(s[1..], x);
    }
  }

  /** Removal takes exactly one copy of a present key out of the chain's multiset of keys. */
  lemma {:induction false} RemoveFirstCounts(s: seq<string>, x: string)
    ensures x in s ==> multiset(RemoveFirst(s, x)) == multiset(s) - multiset{x} && |RemoveFirst(s, x)| == |s| - 1
    ensures x !in s ==> RemoveFirst(s, x) == s
  {
    if x !in s {
      RemoveFirstAbsent(s, x);
    } else if s[0] != x {
      RemoveFirstCounts(s[1..], x);
      assert s == [s[0]] + s[1..];
    } else {
      assert s == [s[0]] + s[1..];
    }
  }

  /** A chain without duplicates keeps none after a removal, and loses the removed key. */
  lemma {:induction false} RemoveFirstDistinct(s: seq<string>, x: string)
    requires Distinct(s)
    ensures Distinct(RemoveFirst(s, x))
    ensures x !in RemoveFirst(s, x)
    ensures forall y :: y in RemoveFirst(s, x) <==> y in s && y != x
  {
    if x in s {
      RemoveFirstAt(s, x);
      var i := FirstIndex(s, x);
      assert s == s[..i] + [x] + s[i + 1..];
      assert multiset(s) == multiset(s[..i]) + multiset{x} + multiset(s[i + 1..]);
      assert x !in s[..i];
      forall k | i + 1 <= k < |s| ensures s[k] != x {
        assert s[i] == x;
      }
      forall y ensures y in RemoveFirst(s, x) <==> y in s && y != x {
        assert y in s <==> y in s[..i] || y == x || y in s[i + 1..];
      }
    } else {
      RemoveFirstAbsent(s, x);
    }
  }

  /** No key occurs twice. */
  predicate Distinct(s: seq<string>) {
    forall i, j :: 0 <= i < j < |s| ==> s[i] != s[j]
  }

  /** Prepending a key that is not yet in a duplicate-free chain keeps it duplicate-free. */
  lemma DistinctCons(x: string, s: seq<string>)
    requires Distinct(s) && x !in s
    ensures Distinct([x] + s)
  {
    forall a, b | 0 <= a < b < |[x] + s| ensures ([x] + s)[a] != ([x] + s)[b] {
      assert ([x] + s)[b] == s[b - 1];
      if a > 0 {
        assert ([x] + s)[a] == s[a - 1];
      }
    }
  }

  /** The chain after `Node.moveToFront(x)`: `remove(x) && add(x)`. */
  function MoveToFront(s: seq<string>, x: string): seq<string> {
    if x in s then [x] + RemoveFirst(s, x) else s
  }

  /** Moving a key to the front reorders the chain without changing its keys; moving the head is a no-op. */
  lemma MoveToFrontSpec(s: seq<string>, x: string)
    ensures multiset(MoveToFront(s, x)) == multiset(s)
    ensures x in s ==> MoveToFront(s, x)[0] == x
    ensures x in s ==> MoveToFront(s, x)[1..] == s[..FirstIndex(s, x)] + s[FirstIndex(s, x) + 1..]
    ensures s != [] && s[0] == x ==> MoveToFront(s, x) == s
    ensures x !in s ==> MoveToFront(s, x) == s
  {
    RemoveFirstCounts(s, x);
    if x in s {
      RemoveFirstAt(s, x);
      assert multiset([x]) == multiset{x};
    }
  }

  /** Moving a key to the front of a duplicate-free chain keeps it duplicate-free with the same keys. */
  lemma MoveToFrontDistinct(s: seq<string>, x: string)
    requires Distinct(s)
    ensures Distinct(MoveToFront(s, x))
    ensures forall y :: y in MoveToFront(s, x) <==> y in s
  {
    if x in s {
      RemoveFirstDistinct(s, x);
      DistinctCons(x, RemoveFirst(s, x));
    }
  }

  /** `Node.toString` of a non-empty chain: the keys joined by `", "`. */
  function Join(s: seq<string>): string
    requires s != []
  {
    if |s| == 1 then s[0] else s[0] + ", " + Join(s[1..])
  }

  /** `Node.toString`: the empty chain prints its null head as "null". */
  function Render(s: seq<string>): string {
    if s == [] then "null" else Join(s)
  }

  /** The data a chain's `NodeIterator` yields: the null head of an emptied chain, else its keys. */
  function NodeData(chain: seq<string>): (r: seq<Option<string>>)
    ensures |r| == if chain == [] then 1 else |chain|
  {
    if chain == [] then [None] else seq(|chain|, k requires 0 <= k < |chain| => Some(chain[k]))
  }

  /** The present values of a sequence of possibly-null data, in order. */
  function Somes(r: seq<Option<string>>): seq<string> {
    if r == [] then []
    else if r[|r| - 1].Some? then Somes(r[..|r| - 1]) + [r[|r| - 1].value]
    else Somes(r[..|r| - 1])
  }

  /** Dropping the absent values distributes over concatenation. */
  lemma {:induction false} SomesAppend(a: seq<Option<string>>, b: seq<Option<string>>)
    ensures Somes(a + b) == Somes(a) + Somes(b)
    decreases |b|
  {
    if b != [] {
      var ab := a + b;
      assert ab[..|ab| - 1] == a + b[..|b| - 1];
      SomesAppend(a, b[..|b| - 1]);
    } else {
      assert a + b == a;
    }
  }
}
