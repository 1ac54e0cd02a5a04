# StringHashSet in Dafny

A verified model of `StringHashSet`, a hash set of strings that uses separate chaining.
The model covers:

- its bucket chain `Node`, a singly linked list edited in place, and `Node`'s iterator;
- the Java `String.hashCode` recurrence it reimplements, with 32-bit wrap-around;
- the table operations: construction, `clear`, `add` with its doubling resize, `contains` (which moves a found key to the front of its chain), `remove`, `size`, `isEmpty`, `addAll` and the debug dump `toRawString`;
- the fail-fast `HashSetIterator`.

Modules, one per file:

- `Wrappers` (`wrappers.dfy`): `Option`, and the iterator's `Result` with its two errors, `NoSuchElement` and `ConcurrentModification`.
- `JavaInt` (`java_int.dfy`): Java `int` arithmetic.
  - `Wrap` is the 32-bit wrap-around.
  - `Inc` is `x++`.
  - `Rem` is `%`, which truncates toward zero.
- `StringHash` (`string_hash.dfy`): `stringHashCode` as a loop.
  - It is proved equal to the polynomial `sum c[i]·31^(n-1-i)` wrapped to 32 bits.
  - The slot index is proved equal to that polynomial mod 2^31 mod capacity.
- `ChainSpec` (`chain_spec.dfy`): the sequence functions that chain operations are specified by.
  - `RemoveFirst` drops the first match.
  - `MoveToFront` moves a key to the head.
  - `Render` is `Node.toString`.
  - Their properties are proved: multiset effect, no duplicates kept, which keys remain.
- `Chain` (`chain.dfy`): the heap class `Node`, with `data` and `next` fields and a ghost `Contents`/`Repr`.
  - Each method is proved against the `ChainSpec` functions.
  - `NodeIterator` is a class over the nodes.
  - The five-key chain that `NodeTest` builds is included, with its removal, pop and move-to-front tests as scenarios.
- `Buckets` (`buckets.dfy`): the table as a value, a sequence of slots.
  - A slot is `None` for a null cell, `Some([])` for an emptied chain (a `Node` whose `data` is null), or `Some(c)` for a chain, head first.
  - It defines the table invariant: keys sit in the slot their hash selects, no chain repeats a key, and `size` counts the keys.
  - Each operation is a function on slots, proved to keep the invariant and to have the effect the documentation promises on the key set.
- `RawString` (`raw_string.dfy`): the text `toRawString` produces, with decimal rendering of the indices.
- `HashSet` (`string_hash_set.dfy`): the class `StringHashSet`.
  - Its fields are `size`, `capacity`, `table: array<Slot>` and `changes`.
  - Every method is proved against the `Buckets` function of the same operation.
- `SetIteration` (`set_iterator.dfy`): the class `HashSetIterator`.
  - Its `next`/`hasNext` are proved against the sequence of keys still to come, slot by slot in index order.
  - From a fresh iterator that sequence is exactly the set's keys, each once.
- `AsWritten` (`as_written.dfy`): three paths where the code throws instead of doing what its comments promise. See "## Findings".

Where the code and its documentation comments differ, the model follows the code:

- `toRawString` writes `"<index>: "`, then every value the slot's chain yields, each followed by a space, then `"null"` and a newline. An emptied chain yields its null head, so it prints `"null null"`.
- `changes` moves once per successful `add`, `remove`, construction and `clear`. A resize inside `add` is not counted separately.

## Model

| member | source | states |
|---|---|---|
| Chain.Node.EmptyIffNoData | src/StringHashSet.java:26-36 | the head holds no key exactly when the chain is empty; otherwise the head's key is the first of `Contents` |
| Chain.Node.constructor | src/StringHashSet.java:30-32 | `Node()` is the empty chain: no key, no successor |
| Chain.Node.Init | src/StringHashSet.java:34-36 | `Node(data)` is the chain holding just `data` |
| Chain.Node.Add | src/StringHashSet.java:43-52 | the new key becomes the head in front of all old keys (`Contents == [item] + old(Contents)`); returns true |
| Chain.Node.Remove | src/StringHashSet.java:59-72 | returns whether the key was present; the chain loses exactly its first occurrence (`RemoveFirst`); no node is freed or allocated |
| Chain.Node.Pop | src/StringHashSet.java:78-82 | returns the head key, and the chain is the rest |
| Chain.Node.Get | src/StringHashSet.java:89-93 | true exactly when the key is in the chain |
| Chain.Node.MoveToFront | src/StringHashSet.java:100-102 | returns whether the key was present; the chain becomes `MoveToFront(old, key)`, i.e. the key first and the others in their old order |
| Chain.Node.ToString | src/StringHashSet.java:104-106 | the keys joined by ", ", or "null" for the empty chain |
| Chain.Node.RawKeys | src/StringHashSet.java:108-131 | the node iterator yields at least one value, and the keys are those values with the null head of an emptied chain dropped |
| Chain.Node.Raw | src/StringHashSet.java:108-131 | the values `NodeIterator` yields, node by node from the head: each node's `data`, a null head included |
| Chain.Node.RawData | src/StringHashSet.java:108-131 | the values the node iterator yields are the chain's `NodeData`: its keys in order, or one null for an emptied chain |
| Chain.NodeIterator.constructor | src/StringHashSet.java:115-117 | the iterator starts at the head with every node's data still to come |
| Chain.NodeIterator.HasNext | src/StringHashSet.java:120-122 | true exactly when some value remains |
| Chain.NodeIterator.Next | src/StringHashSet.java:125-130 | past the end: `NoSuchElement`; otherwise the first remaining value, and it is no longer remaining |
| Chain.Populate | src/NodeTest.java:15-22 | five keys added in turn to `new Node()` are listed last-added first, and printed in that order |
| Chain.JoinNumbers | src/NodeTest.java:24-28 | the test chain prints as "one, two, three, four, five" |
| Chain.RemoveThreeKeys | src/NodeTest.java:44-47 | removing "three" from the test chain leaves "one", "two", "four", "five" in that order |
| Chain.MoveHeadKeys | src/NodeTest.java:78-79 | moving the head "one" of the test chain to the front leaves it as it was |
| Chain.MoveThreeKeys | src/NodeTest.java:80-81 | moving "three" to the front of the test chain gives "three", "one", "two", "four", "five" |
| Chain.RemovedText | src/NodeTest.java:47 | the chain left by the removal prints as "one, two, four, five" |
| Chain.PoppedText | src/NodeTest.java:64 | the chain left by the first pop prints as "two, three, four, five" |
| Chain.MovedText | src/NodeTest.java:81 | the chain left by the move prints as "three, one, two, four, five" |
| Chain.RemoveThree | src/NodeTest.java:44-47 | on the test chain, `remove("three")` returns true and `toString` then gives "one, two, four, five" |
| Chain.PopOne | src/NodeTest.java:61-64 | on the test chain, `pop()` returns "one" and `toString` then gives "two, three, four, five" |
| Chain.MoveThree | src/NodeTest.java:76-81 | on the test chain, `moveToFront("one")` and then `moveToFront("three")` return true, and `toString` then gives "three, one, two, four, five" |
| ChainSpec.FirstIndex | src/StringHashSet.java:59-72 | the position of a key's first occurrence: it is there and not before |
| ChainSpec.RemoveFirst | src/StringHashSet.java:59-72 | the chain after `Node.remove`: the first occurrence of the key spliced out, the rest in order; its properties are the `RemoveFirst*` lemmas |
| ChainSpec.RemoveFirstAt | src/StringHashSet.java:59-72 | removal of a present key deletes exactly its first occurrence and keeps the rest in order |
| ChainSpec.RemoveFirstAbsent | src/StringHashSet.java:59-72 | removal of an absent key changes nothing |
| ChainSpec.RemoveFirstCounts | src/StringHashSet.java:59-72 | removal takes one copy of a present key out of the multiset and shortens the chain by one; an absent key leaves it unchanged |
| ChainSpec.RemoveFirstDistinct | src/StringHashSet.java:59-72 | in a duplicate-free chain, removal keeps it duplicate-free, leaves the key absent, and keeps every other key |
| ChainSpec.DistinctCons | src/StringHashSet.java:43-52 | prepending an absent key to a duplicate-free chain keeps it duplicate-free |
| ChainSpec.MoveToFront | src/StringHashSet.java:100-102 | the chain after `moveToFront`: for a present key, `remove` then `add`, so the key at the head; an absent key leaves the chain; its properties are `MoveToFrontSpec` and `MoveToFrontDistinct` |
| ChainSpec.MoveToFrontSpec | src/StringHashSet.java:100-102 | moving to the front is a permutation; a present key ends first with the rest in old order; the head or an absent key changes nothing |
| ChainSpec.MoveToFrontDistinct | src/StringHashSet.java:100-102 | moving to the front keeps a chain duplicate-free and its key set unchanged |
| ChainSpec.Render | src/StringHashSet.java:104-106 | `Node.toString`: the keys joined by ", " from the head, or "null" for the emptied chain; `Node.ToString` is proved to equal it |
| ChainSpec.NodeData | src/StringHashSet.java:232-234 | an emptied chain yields one (null) value, any other chain yields one value per key |
| JavaInt.Wrap | src/StringHashSet.java:169-176 | the wrapped value is an `int`, differs from the exact value by a multiple of 2^32, and equals it when it fits |
| JavaInt.Inc | src/StringHashSet.java:153 | `x++` on an `int`: one more, except that `MAX_VALUE` wraps to `MIN_VALUE`; never the old value |
| JavaInt.Rem | src/StringHashSet.java:196 | Java `%`: for a non-negative dividend, the remainder in `[0, b)`; for a negative one, in `(-b, 0]` |
| JavaInt.WrapCongruent | src/StringHashSet.java:169-176 | values that differ by a multiple of 2^32 wrap to the same `int` |
| JavaInt.IncIsWrap | src/StringHashSet.java:209 | `x++` on an `int` is the wrap of `x + 1` |
| JavaInt.Advance | src/StringHashSet.java:209 | `n` successive `x++` from an `int` (fewer than 2^32 of them): again an `int` |
| JavaInt.AdvanceStep | src/StringHashSet.java:209 | zero increments leave the value; one more increment is one more `x++` |
| JavaInt.AdvanceWrap | src/StringHashSet.java:209 | `n` increments one by one land on the wrap of `x + n` |
| StringHash.Poly | src/StringHashSet.java:169-176 | the hash polynomial without overflow: `31 * Poly(prefix) + code(last)`, the exact value the wrapped steps approximate |
| StringHash.HashCode | src/StringHashSet.java:169-176 | the hash after the `hash *= 31; hash += c` steps is an `int` |
| StringHash.StringHashCode | src/StringHashSet.java:169-176 | the loop computes the step-by-step hash, which is the polynomial hash wrapped to 32 bits |
| StringHash.HashCodeIsWrappedPoly | src/StringHashSet.java:169-176 | wrapping after every step equals wrapping once at the end |
| StringHash.Normalise | src/StringHashSet.java:195 | `if (hash < 0) hash += Integer.MAX_VALUE + 1`, with `Integer.MAX_VALUE + 1` wrapping to `MIN_VALUE` and the sum wrapping again; a non-negative hash is kept |
| StringHash.NormaliseRange | src/StringHashSet.java:195 | adding `Integer.MAX_VALUE + 1` to a negative `int` (itself wrapping to `MIN_VALUE`) gives a value in `[0, 2^31)` that agrees with the hash mod 2^31 |
| StringHash.NormalisedHash | src/StringHashSet.java:194-195 | the normalised hash of a string is its polynomial hash mod 2^31 |
| StringHash.SlotIndex | src/StringHashSet.java:194-196 | the slot index `hash % capacity` of the normalised hash lies in `[0, capacity)` |
| StringHash.SlotIndexOfPoly | src/StringHashSet.java:194-196 | the slot index is the polynomial hash mod 2^31 mod capacity |
| StringHash.HashExamples | src/StringHashSet.java:169-176 | "a" hashes to 97 and "ab" to 97·31 + 98 |
| Buckets.EmptySlots | src/StringHashSet.java:152 | a new array: `n` null cells |
| Buckets.InsertKey | src/StringHashSet.java:193-213 | the table after `add` without a resize: a null slot gets a chain, a new key goes to the head of its slot's chain, a present key changes nothing; the capacity is kept; its properties are `InsertKeySpec` |
| Buckets.InsertAll | src/StringHashSet.java:201 | the keys added in turn, first to last, to a table that does not resize; the capacity is kept |
| Buckets.Rehash | src/StringHashSet.java:200-203 | the resize: every stored key, in listing order, added to a fresh table of the new capacity; its properties are `RehashSpec` |
| Buckets.AddSlots | src/StringHashSet.java:193-213 | the table after `add`: a present key changes nothing; a new key arriving at `size >= 2 * capacity` goes into the rehash at twice the capacity, otherwise into the table as it is; its properties are `AddSlotsSpec` |
| Buckets.Ensure | src/StringHashSet.java:197 | a null slot becomes an emptied chain; any other slot, and the rest of the table, are kept |
| Buckets.RemoveSlots | src/StringHashSet.java:291-301 | the table after `remove`: the key's slot chain loses its first occurrence of the key; a null or emptied slot is left alone; its properties are `RemoveSlotsSpec` |
| Buckets.ContainsSlots | src/StringHashSet.java:251-256 | the table after `contains`: a found key moves to the front of its chain; otherwise nothing changes; its properties are `ContainsSlotsSpec` |
| Buckets.TableInv | src/StringHashSet.java:193-213 | the table invariant every operation keeps: at least one slot, each key in the slot its index selects, no chain repeating a key, and `size` equal to the number of listed keys |
| Buckets.EmptyTable | src/StringHashSet.java:149-154 | a new array of positive length satisfies the table invariant with size 0 and holds no key |
| Buckets.MemberAtIndex | src/StringHashSet.java:194-198 | in a well-placed table, a key is a member exactly when it is in the chain its slot index selects |
| Buckets.AddNoGrow | src/StringHashSet.java:199 | below the threshold `size >= 2 * capacity`, `add` is a plain insertion |
| Buckets.AddGrows | src/StringHashSet.java:198-206 | at `size >= 2 * capacity` the `add` of a new key is an insertion into the rehash at twice the capacity |
| Buckets.RehashAbsent | src/StringHashSet.java:200-204 | a key that is no member is absent from its new slot's chain after the resize |
| Buckets.PrependEnsured | src/StringHashSet.java:205-207 | giving the key's slot a chain and then prepending the new key is the insertion of that key |
| Buckets.InsertKeySpec | src/StringHashSet.java:197-198 | one insertion adds the key to the members and keeps the invariant; size grows only for a new key; a present key leaves the table as it was |
| Buckets.InsertAllSpec | src/StringHashSet.java:201 | inserting keys in turn adds exactly those keys and keeps the invariant |
| Buckets.InsertAllCount | src/StringHashSet.java:201 | inserting distinct new keys adds one to the size per key |
| Buckets.RehashSpec | src/StringHashSet.java:200-203 | the resize keeps exactly the same members and the same size in a table of the new capacity |
| Buckets.AddSlotsSpec | src/StringHashSet.java:193-213 | `add` leaves the members plus the key and keeps the invariant; size grows exactly for a new key; a present key changes nothing; the capacity doubles exactly when a new key meets `size >= 2 * capacity` |
| Buckets.RemoveSlotsSpec | src/StringHashSet.java:291-301 | `remove` leaves the members minus the key and keeps the invariant; size drops exactly for a member; an absent key changes nothing |
| Buckets.ContainsSlotsSpec | src/StringHashSet.java:251-256 | `contains` keeps the members and the invariant; only a member's chain is reordered |
| Buckets.AddAllFrom | src/StringHashSet.java:309-313 | the table after `addAll` from item `k` on: each item in turn added by `AddSlots`, the count growing with each new key |
| Buckets.AddAllFromStep | src/StringHashSet.java:309-313 | one `add` of `addAll`: the rest of the items are added to the table that `add` leaves |
| Buckets.AddAllFromSpec | src/StringHashSet.java:309-313 | `addAll` leaves exactly the old members and every item |
| Buckets.AddAllFromInv | src/StringHashSet.java:309-313 | `addAll` leaves a table that keeps the invariant |
| Buckets.AddPresent | src/StringHashSet.java:198-212 | `add` of a member leaves the table as it was |
| Buckets.AddKeys | src/StringHashSet.java:193-213 | the members after one `add` are the old ones plus the key |
| Buckets.AddKeepsInv | src/StringHashSet.java:193-213 | one `add` keeps the invariant, with the count unchanged for a member and one more for a new key |
| Buckets.IterationCoversTable | src/StringHashSet.java:264-266 | the keys listed slot by slot number `size`, as many as the members, and none repeats |
| Buckets.After | src/StringHashSet.java:353-376 | the keys the set iterator still visits in the slots from `k` on: each slot's chain in index order, head first |
| Buckets.AfterIsSuffix | src/StringHashSet.java:353-358 | the keys from slot `k` on are the listing of the slots from `k` |
| Buckets.IterationFromStart | src/StringHashSet.java:338-347 | the keys still to come from a fresh iterator are the whole listing: each member once, `size` of them |
| Buckets.FirstChain | src/StringHashSet.java:353-374 | the scan of `hasNext` and `next`: the first slot from `k` whose chain has a head key, or past the end |
| Buckets.FirstChainAfter | src/StringHashSet.java:371-374 | the keys from slot `k` on start with the chain of the slot the scan finds, or there are none |
| HashSet.ChangesStep | src/StringHashSet.java:309-313 | one `add` of `addAll` moves `changes` exactly when it adds a key, so the count stays `Advance(c0, keys added so far)` |
| HashSet.UnionCount | src/StringHashSet.java:309-313 | the members after `addAll` number the old ones plus the items that were not members |
| HashSet.StringHashSet.constructor | src/StringHashSet.java:137-140 | an empty set of capacity 5, five null cells, and `changes` at 1 |
| HashSet.StringHashSet.WithCapacity | src/StringHashSet.java:145-147 | an empty set of the given capacity, all cells null, and `changes` at 1 |
| HashSet.StringHashSet.Initialize | src/StringHashSet.java:149-154 | size 0, the given capacity, a fresh array of null cells, `changes` incremented |
| HashSet.StringHashSet.Clear | src/StringHashSet.java:279-281 | no members, size 0, capacity back to 5, fresh null cells, `changes` moved |
| HashSet.StringHashSet.Hash | src/StringHashSet.java:194-195 | the normalised hash, in `[0, 2^31)` |
| HashSet.StringHashSet.IndexOf | src/StringHashSet.java:194-196 | the key's slot index under the current capacity |
| HashSet.StringHashSet.Add | src/StringHashSet.java:193-213 | the table becomes `AddSlots` of the old one; the members gain the key; true exactly for a new key; size and `changes` move exactly then; capacity doubles exactly when a new key meets `size >= 2 * capacity` |
| HashSet.StringHashSet.EnsureChain | src/StringHashSet.java:197 | a null cell at the index becomes an emptied chain; nothing else changes |
| HashSet.StringHashSet.Prepend | src/StringHashSet.java:207-209 | the key is put at the head of its slot's chain; size grows by one and `changes` is incremented |
| HashSet.StringHashSet.GrowFor | src/StringHashSet.java:199-205 | capacity doubles, keys are rehashed, the key's new slot has a chain, and the new index is returned |
| HashSet.StringHashSet.Grow | src/StringHashSet.java:200-203 | the array is replaced by the rehash of the old keys into twice the capacity; size and `changes` are kept |
| HashSet.StringHashSet.Rebuild | src/StringHashSet.java:200-201 | a fresh set of twice the capacity into which every key was added in listing order |
| HashSet.StringHashSet.Reinsert | src/StringHashSet.java:201 | every key of one chain is added in turn, with no resize |
| HashSet.StringHashSet.Contains | src/StringHashSet.java:251-256 | true exactly for a member; the members are unchanged; a found key moves to the front of its chain |
| HashSet.StringHashSet.Remove | src/StringHashSet.java:291-301 | true exactly for a member; the member set loses the key; size and `changes` move exactly on success |
| HashSet.StringHashSet.Unlink | src/StringHashSet.java:295-299 | the key's chain loses its first occurrence of the key; success, size and `changes` follow presence |
| HashSet.StringHashSet.Size | src/StringHashSet.java:264-266 | the number of members, which is also the number of listed keys |
| HashSet.StringHashSet.IsEmpty | src/StringHashSet.java:271-273 | true exactly when there are no members |
| HashSet.StringHashSet.AddAll | src/StringHashSet.java:309-313 | the table becomes `AddAllFrom` of the old one, each item added in order; the members gain every item; true exactly when some item was not already a member; size grows by the number of new items and `changes` moves once per new item (`AdvanceWrap` gives its value as the wrap of the sum); false leaves the table and `changes` as they were |
| HashSet.StringHashSet.AddEach | src/StringHashSet.java:310-312 | the loop over the items: the table reaches the fold, size grows by at most one per item, `changes` follows the keys added, and the result is true exactly when size grew |
| HashSet.StringHashSet.AddNext | src/StringHashSet.java:311 | one pass of the loop: the `add` of item `j` carries the fold, the count, `changes` and the result from `j` to `j + 1` |
| HashSet.StringHashSet.ToRawString | src/StringHashSet.java:226-240 | the text is the table's lines, one per index in order |
| HashSet.StringHashSet.AppendLine | src/StringHashSet.java:230-237 | one line appended: the index, ": ", the slot's values, "\n" |
| HashSet.StringHashSet.AppendData | src/StringHashSet.java:232-235 | each value appended followed by a space, then "null" |
| RawString.Text | src/StringHashSet.java:233 | `StringBuilder.append` of a chain value: the key, or "null" for the null head of an emptied chain |
| RawString.Words | src/StringHashSet.java:232-234 | every value the chain yields, in order, each followed by one space |
| RawString.Decimal | src/StringHashSet.java:230 | `StringBuilder.append(int)` of an index: its decimal digits, most significant first |
| RawString.SlotText | src/StringHashSet.java:231-236 | after the colon: "null" for a null cell; otherwise the chain's values each followed by a space, then "null", so an emptied chain gives "null null" |
| RawString.RawLine | src/StringHashSet.java:230-237 | the line of slot `i`: the index, ": ", the slot's text, then "\n" |
| RawString.RawTable | src/StringHashSet.java:226-240 | the whole text of `toRawString`: the lines of every slot in index order |
| RawString.DecimalRoundTrip | src/StringHashSet.java:230 | a line's index is written as decimal digits that read back as the index |
| RawString.Lines | src/StringHashSet.java:229-238 | one line per slot, the `i`-th line being slot `i`'s |
| RawString.ConcatPrefix | src/StringHashSet.java:229-238 | the text after `i + 1` lines is the text after `i` lines and then line `i` |
| RawString.WordsSnoc | src/StringHashSet.java:233 | one more value adds its text and a space at the end |
| RawString.AppendWord | src/StringHashSet.java:233 | appending the next value and a space extends the text by that word |
| RawString.LineParts | src/StringHashSet.java:230-237 | a line written piece by piece is the slot's line |
| RawString.OneKeyLine | src/StringHashSet.java:230-237 | a chain of one key prints as "i: key null" |
| RawString.TwoKeyLine | src/StringHashSet.java:230-237 | a chain of two keys prints them head first, then "null" |
| RawString.EmptiedChainText | src/StringHashSet.java:230-237 | an emptied chain prints as "i: null null" |
| SetIteration.HashSetIterator.constructor | src/StringHashSet.java:344-347 | the keys still to come are the table's whole listing, and the set's `changes` is captured |
| SetIteration.HashSetIterator.Remaining | src/StringHashSet.java:338-378 | the keys still to come: the rest of the chain being walked, then every chain after `index` |
| SetIteration.HashSetIterator.HasNext | src/StringHashSet.java:350-360 | `ConcurrentModification` once the set's count has moved; otherwise whether a key remains |
| SetIteration.HashSetIterator.Next | src/StringHashSet.java:363-377 | `ConcurrentModification` (state unchanged) once the count has moved; `NoSuchElement` (state unchanged) when nothing remains; otherwise the first remaining key, which is then no longer remaining |
| SetIteration.HashSetIterator.NextChain | src/StringHashSet.java:371-376 | when nothing remains, `NoSuchElement` and the iterator unchanged; otherwise the first remaining key, which is then no longer remaining |
| SetIteration.HashSetIterator.EnterChain | src/StringHashSet.java:372-376 | `index` moves to the slot, its head key is returned, and the rest of its chain, then the later slots, remain |
| SetIteration.HashSetIterator.Scan | src/StringHashSet.java:353-358 | the loop computes `FirstChain`: the first slot from `from` whose chain has a key, or `capacity`; the keys from `from` on are those from the slot found |
| AsWritten.LookupAsWritten | src/StringHashSet.java:251-256 | the lookup of `contains`/`remove` as written: `NullPointerException` at an emptied chain, otherwise whether the key is in its slot's chain |
| AsWritten.LookupAsWrittenAgrees | src/StringHashSet.java:251-256 | as written, the lookup of `contains`/`remove` throws exactly at an emptied chain, and otherwise answers membership |
| AsWritten.LookupAfterRemoveThrows | src/StringHashSet.java:59-60 | add "a", remove it, look it up: as written this throws `NullPointerException` |
| AsWritten.RehashAsWritten | src/StringHashSet.java:200-201 | the resize as written: every value each non-null chain yields is added again, so a null head throws `NullPointerException` |
| AsWritten.AddAsWritten | src/StringHashSet.java:193-213 | `add` as written: the key's null slot gets its emptied chain before the resize, which then rehashes it |
| AsWritten.AddAsWrittenAgrees | src/StringHashSet.java:197-206 | where `add` as written returns, it agrees with the model; it throws whenever a new key triggers a resize and its slot was null |
| AsWritten.FullSmallTable | src/StringHashSet.java:193-213 | `[h, f, d, b]` in slot 0 of two is a valid table of size 4, and "a" is absent and hashes to the null slot 1 |
| AsWritten.ResizeThrows | src/StringHashSet.java:197-201 | adding "a" to that full table throws `NullPointerException` as written |
| AsWritten.SmallHashes | src/StringHashSet.java:194-196 | in a table of two slots, "b", "d", "f" and "h" go to slot 0 and "a" to slot 1 |
| AsWritten.NextAsWritten | src/StringHashSet.java:363-377 | `next` as written, once the count check passes: the rest of the chain, else the scan, then `array[index]` even when the scan found nothing |
| AsWritten.NextAsWrittenAgrees | src/StringHashSet.java:363-377 | as written, `next` returns the first remaining key when there is one; when none remains it throws `NoSuchElementException`, or `ArrayIndexOutOfBoundsException` if no chain was ever entered |
| AsWritten.EmptySetNextThrows | src/StringHashSet.java:371-375 | `next` on a fresh iterator over an empty set indexes the array at -1 |

## Left out

- The table keeps each slot's chain as a value in its array cell, not as shared `Node` objects. `Chain.Node` is verified separately against the same sequence functions (`Add` prepends, `Remove` is `RemoveFirst`, `MoveToFront`). The table therefore does not model aliasing between cells or between a cell and an outstanding node iterator.
- SetIteration.HashSetIterator.Next: `iter` holds the rest of the current chain as a snapshot. `contains` reorders a chain without moving `changes`, and the source's live node iterator would then follow the reordered nodes; the model keeps the order the chain had when the iterator entered it.
- `size++` in `add` cannot overflow in the model: the table invariant keeps `size <= 2 * capacity <= 0x7FFF_FFFE`.
- HashSet.StringHashSet.Add: requires that a resize leaves the capacity at most `0x3FFF_FFFF`. A resize from a capacity in `(0x1FFF_FFFF, 0x3FFF_FFFF]`, where `capacity * 2` still fits an `int`, is not modelled, and neither is the overflow of `capacity * 2` above that.
- HashSet.StringHashSet.AddAll: requires `size + |items| <= 0x3FFF_FFFF`, which covers every `add` it makes. The `Collection` is a sequence, iterated in order.
- HashSet.StringHashSet.WithCapacity: requires a positive capacity of at most `0x3FFF_FFFF`. A capacity of 0, where `%` would throw `ArithmeticException`, a negative one, which `new Node[n]` would reject, and a larger one, whose first resize would overflow `capacity * 2`, are not modelled.
- Chain.Node.Remove: requires a non-empty chain. On an emptied chain the source's `this.data.equals(item)` throws `NullPointerException` (line 60); `AsWritten` states that path for the table's lookups.
- Chain.Node.Pop: requires a non-empty chain. On an emptied chain the source's `this.data.equals` inside `remove` throws `NullPointerException` (lines 79-80).
- Chain.Node.MoveToFront: requires a non-empty chain. On an emptied chain the `remove` it starts with throws `NullPointerException` (line 101).
- HashSet.StringHashSet.Initialize: requires `changes` to be an `int` already, which every constructor and method keeps.
- `StringHashSet.toString` returns `null` in the source and is not modelled. The `System.out.println` calls in the iterator are output only and are left out.
- Null keys are not modelled: Dafny strings cannot be null. The null data of an emptied chain is modelled as `None`, and as the `NullPointerException` paths in `AsWritten`.
- A `char` is taken as its code point. Java hashes UTF-16 code units, so characters outside the Basic Multilingual Plane would hash differently.
- `Iterable.iterator()` on `Node` and on `StringHashSet` is modelled by the iterator constructors. Java's `for`-each loop is modelled as the loops written out.
- The three throwing paths under "## Findings" are stated in `AsWritten`. The classes model the evidently intended behaviour.

## Findings

| source | as written | input that shows it | evidently intended | confidence | as-written member | corrected member |
|---|---|---|---|---|---|---|
| src/StringHashSet.java:255,295,60 | `contains`/`remove` call `Node.remove` on a chain whose last key was removed, whose head `data` is null, so `this.data.equals(item)` throws | add "a" to a new set, remove "a", then `contains("a")` or `remove("a")` | answer false: the key is not a member | high (not executed) | AsWritten.LookupAfterRemoveThrows | HashSet.StringHashSet.Contains |
| src/StringHashSet.java:197,201 | `add` makes the new key's null slot an emptied chain before the resize, and the rehash loop then iterates it and adds its null head, so `stringHashCode(null)` throws | table `[h, f, d, b]`, null of capacity 2 with size 4; add "a" (slot 1) | rehash the stored keys, then insert "a" | high (not executed) | AsWritten.ResizeThrows | HashSet.StringHashSet.Add |
| src/StringHashSet.java:371-375 | `next` on a fresh iterator with no keys leaves `index` at -1 and reads `array[-1]` | `new StringHashSet().iterator().next()` | throw `NoSuchElementException` | high (not executed) | AsWritten.EmptySetNextThrows | SetIteration.HashSetIterator.Next |
