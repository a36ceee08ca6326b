# Heap and chained HashMap, modelled in Dafny

Two small standalone Swift containers, each written in a playground with XCTest cases:

- `Heap`: an array-backed binary heap. A flag fixed at construction makes it a max heap or a min heap.
  - Construction appends every input element in order and sifts it up (`update`, `swapIfNeeded`).
  - `poll` returns the root. It then copies the last element over the root and sifts that value down (`lastValueToFirstValue`, `bubbleDown`, `compareIndex`, `maybeValue`).
- `HashMap`: 256 buckets of linked chains of key/value nodes.
  - A key's bucket is the sum of its Unicode scalar values, modulo 256 (`ascIISum`, `mod`).
  - `get` walks the bucket's chain for the first entry with the key (`find`).
  - `set` does one of three things:
    - starts a one-entry chain in an empty bucket;
    - overwrites the value of a matching entry in place;
    - links a new node after the chain's end (`findEndNode`).

Files:

- `wrappers.dfy`: `Option`, standing for Swift's `T?`.
- `heap_spec.dfy` (module `HeapSpec`):
  - the read-only helpers as functions;
  - value-level definitions of what the mutating members do to the array (`SiftUp`, `SiftDown`, `Insert`, `InsertAll`, `PollArray`);
  - the heap property `IsHeap`, and the lemmas about all of these.
- `heap.dfy` (module `Heaps`): the class `Heap`.
  - Its field `currentArray: seq<int>` is updated in place.
  - `update` is a `for` loop.
  - `swapIfNeeded` and `bubbleDown` are recursive methods.
  - Each method is proved equal to its specification function.
  - Its `Valid()` is the heap property.
- `heap_tests.dfy` (module `HeapTests`): the four XCTest cases as verified client code, and the input behind the finding below.
- `hashmap_spec.dfy` (module `HashMapSpec`):
  - the checksum and bucket function;
  - `find` and `findEndNode` over a chain modelled as the sequence of its entries in link order;
  - the bucket invariant `ChainValid`: every key hashes to its bucket, and no key occurs twice;
  - the abstraction `Represents` from the 256 buckets to a map.
- `hashmap.dfy` (module `HashMaps`): the class `HashMap`.
  - `buckets` is a 256-slot `array<seq<KeyValue>>`; the empty sequence stands for a nil bucket.
  - A ghost `Contents` map is what the table stands for.
  - `Get` and `Set` are specified against `Contents`. `Set` is also specified bucket by bucket.
- `hashmap_tests.dfy` (module `HashMapTests`):
  - the two XCTest cases;
  - a check of a missing key and an overwrite;
  - a general set-then-get method.

Behaviour of the code worth knowing:

- `poll` never removes the last slot. The array keeps its length; with more than one element, the last value ends up in the array at least twice.
- `poll` on an empty heap traps: `bubbleDown(0)` reads `currentArray[0]`. So `Poll` requires a non-empty array.
- `compareIndex` returns nil exactly when the right child index is past the end. This includes the case of a lone left child.
  - Inside `poll` this is harmless. A lone left child is always the last element. The value being sifted down is a copy of the last element, so that child never beats it (the proviso of `SiftDownRestoresHeap`).
- When the right child beats the left, `compareIndex` returns the right child's value where it means its index (lines 37-38, 41-42). As written, `poll` can then read past the end of the array, or stop on an array that is not a heap. The model's `poll` uses the corrected choice; see "## Findings".
- The checksum is a plain sum of scalar values. The order of the characters does not change it, so anagrams always share a bucket (`AsciiSumPermutation`).
- The heap has no operation besides construction, `output` and `poll`. The map has only `get` and `set`, with chaining.

## Model

| member | source | states |
|---|---|---|
| HeapSpec.IsNeedSwap | Heap/Heap.playground/Contents.swift:98-103 | a swap is needed exactly when the parent fails to dominate the child (smaller in max mode, larger in min mode), and never between equal values |
| HeapSpec.ParentIndex | Heap/Heap.playground/Contents.swift:88-89 | for every index > 0 the computed parent lies in [0, index), and the index is one of its two children; at index 0 the value is -1, which `swapIfNeeded` never uses |
| HeapSpec.Swap | Heap/Heap.playground/Contents.swift:93 | `swapAt` exchanges the two positions and leaves every other position and the length unchanged |
| HeapSpec.SwapPermutes | Heap/Heap.playground/Contents.swift:93 | a swap keeps the multiset of elements |
| HeapSpec.SiftUp | Heap/Heap.playground/Contents.swift:87-96 | sift-up keeps the array's length |
| HeapSpec.SiftUpPermutes | Heap/Heap.playground/Contents.swift:87-96 | sift-up keeps the multiset of elements |
| HeapSpec.SiftUpRestoresHeap | Heap/Heap.playground/Contents.swift:87-103 | an array in which every element other than `index` is dominated by its parent, and in which the parent of `index` dominates the children of `index`, is a full heap after sift-up from `index` |
| HeapSpec.Insert | Heap/Heap.playground/Contents.swift:82-83 | one append and sift-up grows the array by one |
| HeapSpec.InsertPreservesHeap | Heap/Heap.playground/Contents.swift:82-83 | appending to a heap and sifting the new last index up yields a heap |
| HeapSpec.InsertAll | Heap/Heap.playground/Contents.swift:80-85 | the construction loop grows the array by the number of inputs |
| HeapSpec.InsertAllPermutes | Heap/Heap.playground/Contents.swift:80-85 | the construction loop adds exactly the input elements, counted with multiplicity |
| HeapSpec.InsertAllPreservesHeap | Heap/Heap.playground/Contents.swift:80-85 | the loop keeps the heap property, whatever the inputs |
| HeapSpec.BuildIsHeapPermutation | Heap/Heap.playground/Contents.swift:9-13 | built from an empty array, the result is a heap, has the input's length, and is a permutation of the input |
| HeapSpec.MaybeValue | Heap/Heap.playground/Contents.swift:29-31 | nil exactly when the index is past the end, otherwise the element there |
| HeapSpec.CompareIndex | Heap/Heap.playground/Contents.swift:33-53 | corrected `compareIndex`, with `rightIndex` returned where the code returns `right`. It is nil exactly when the right index is past the end. Otherwise it is one of the two indices, in bounds, and its element dominates both children: the right one when the right child beats the left, else the left one |
| HeapSpec.CompareIndexAsWritten | Heap/Heap.playground/Contents.swift:33-53 | `compareIndex` as written: nil exactly when the right index is past the end; when both children exist, the right child's VALUE if it beats the left, else the left index |
| HeapSpec.SiftDown | Heap/Heap.playground/Contents.swift:63-75 | sift-down keeps the array's length |
| HeapSpec.SiftDownPermutes | Heap/Heap.playground/Contents.swift:63-75 | sift-down keeps the multiset of elements |
| HeapSpec.SiftDownStopIsHeap | Heap/Heap.playground/Contents.swift:67-69 | under `SiftDownPre` (a heap except below `index`, whose parent dominates `index`'s children, and whose value at `index` dominates the last element), when no child is chosen, or the chosen one does not beat the current value, sift-down returns the array unchanged and it is already a heap |
| HeapSpec.ChosenChild | Heap/Heap.playground/Contents.swift:33-53 | under `SiftDownPre` (a heap except below `index`, whose parent dominates `index`'s children, and whose value at `index` dominates the last element), a child chosen by `compareIndex` that beats the current value is a child of `index`, dominates its sibling, and is not the last element |
| HeapSpec.SwapDownAwayFromChild | Heap/Heap.playground/Contents.swift:70 | under `SiftDownPre` (a heap except below `index`, whose parent dominates `index`'s children, and whose value at `index` dominates the last element), after swapping `index` with the chosen child, every parent other than the child dominates its children |
| HeapSpec.SwapDownAtChild | Heap/Heap.playground/Contents.swift:70 | under `SiftDownPre` (a heap except below `index`, whose parent dominates `index`'s children, and whose value at `index` dominates the last element), after swapping `index` with the chosen child, the value moved up to `index` dominates the children of the child |
| HeapSpec.SiftDownStep | Heap/Heap.playground/Contents.swift:67-71 | one swap moves the single break in the heap property from `index` down to the strictly larger child index |
| HeapSpec.SiftDownRestoresHeap | Heap/Heap.playground/Contents.swift:63-75 | an array in which every parent other than `index` dominates its children, in which the parent of `index` dominates the children of `index`, and whose value at `index` dominates the last element, is a full heap after sift-down from `index` |
| HeapSpec.PollArray | Heap/Heap.playground/Contents.swift:19-24 | the array `poll` leaves has the same length as before |
| HeapSpec.PollArrayElements | Heap/Heap.playground/Contents.swift:19-24 | `poll` trades one occurrence of the root for one more occurrence of the last element |
| HeapSpec.PollPreservesHeap | Heap/Heap.playground/Contents.swift:19-24 | `poll` on a heap leaves a heap (with the corrected `compareIndex`) |
| HeapSpec.RootDominates | Heap/Heap.playground/Contents.swift:19-20 | in a heap the root dominates every element, following the chain of parents |
| HeapSpec.RootIsExtreme | Heap/Heap.playground/Contents.swift:19-20 | in a non-empty heap the root is the maximum (max mode) or the minimum (min mode) |
| Heaps.Heap.constructor | Heap/Heap.playground/Contents.swift:9-13 | stores the flag and the input; the array is the construction loop over the input, is a heap, and is a permutation of the input |
| Heaps.Heap.Output | Heap/Heap.playground/Contents.swift:15-17 | the backing array, which is a heap |
| Heaps.Heap.Poll | Heap/Heap.playground/Contents.swift:19-24 | on a non-empty heap: returns the old root, which dominates every old element; the array keeps its length, stays a heap (with the corrected `compareIndex`), trades the root for a copy of the last element, and equals `PollArray` of the old array |
| Heaps.Heap.LastValueToFirstValue | Heap/Heap.playground/Contents.swift:58-61 | an empty array is left alone; otherwise index 0 takes the last element and nothing else changes |
| Heaps.Heap.BubbleDown | Heap/Heap.playground/Contents.swift:63-75 | the recursive in-place swaps compute `SiftDown` of the old array |
| Heaps.Heap.Update | Heap/Heap.playground/Contents.swift:80-85 | the loop over the input computes `InsertAll` from the old array |
| Heaps.Heap.SwapIfNeeded | Heap/Heap.playground/Contents.swift:87-96 | the recursive in-place swaps compute `SiftUp` of the old array |
| HeapTests.MinHeapLayout | Heap/Heap.playground/Contents.swift:108-112 | min mode on [5, 1, 4, 2, 3] lays out [1, 2, 4, 5, 3] |
| HeapTests.MaxHeapLayout | Heap/Heap.playground/Contents.swift:114-118 | max mode on [5, 1, 4, 2, 3] lays out [5, 3, 4, 1, 2] |
| HeapTests.CompareIndexAsWrittenEscapesArray | Heap/Heap.playground/Contents.swift:37-38 | on the max heap [9, 1, 5] after the root overwrite, `compareIndex` as written returns 5 for an array of length 3; the corrected one returns 2 |
| HeapTests.CompareIndexAsWrittenOnMaxPollInput | Heap/Heap.playground/Contents.swift:37-38 | on the testMaxPoll input, after the root overwrite, `compareIndex` as written returns 4, the value. Index 4 holds 2, which does not beat the root, so sift-down stops on an array that is not a heap. The corrected choice gives the heap [4, 3, 2, 1, 2] |
| HeapTests.LoneLeftChildIsIgnored | Heap/Heap.playground/Contents.swift:33-53 | with only a left child, `compareIndex` is nil and sift-down stops even though the pair is not a heap |
| HashMapSpec.AsciiSum | HashMap/HashMap.playground/Contents.swift:29-33 | the checksum of the empty string is 0, and the checksum is at least the scalar value of each of its characters |
| HashMapSpec.AsciiSumConcat | HashMap/HashMap.playground/Contents.swift:29-33 | the checksum of a concatenation is the sum of the checksums |
| HashMapSpec.AsciiSumRemove | HashMap/HashMap.playground/Contents.swift:29-33 | removing one character takes exactly its scalar value off the checksum |
| HashMapSpec.AsciiSumPermutation | HashMap/HashMap.playground/Contents.swift:29-33 | strings with the same characters, in any order, have the same checksum |
| HashMapSpec.Mod | HashMap/HashMap.playground/Contents.swift:42-47 | the bucket of every key is a valid index of the 256-slot table |
| HashMapSpec.ModPermutation | HashMap/HashMap.playground/Contents.swift:45-47 | anagrams land in the same bucket |
| HashMapSpec.Find | HashMap/HashMap.playground/Contents.swift:49-54 | the found position holds the key and no earlier entry does; nil exactly when no entry has the key |
| HashMapSpec.FindEndNode | HashMap/HashMap.playground/Contents.swift:56-59 | following the links of a non-empty chain ends at its last entry |
| HashMapSpec.Lookup | HashMap/HashMap.playground/Contents.swift:63-69 | the answer `get` gives from a chain: nil exactly when no entry has the key, otherwise the value of an entry holding that key |
| HashMapSpec.LookupSingleton | HashMap/HashMap.playground/Contents.swift:73-78 | a one-entry chain answers its value for its key and nil for every other key |
| HashMapSpec.LookupAppend | HashMap/HashMap.playground/Contents.swift:81-86 | linking an entry with a new key after the end answers its value for that key and leaves every other key's answer unchanged |
| HashMapSpec.LookupOverwrite | HashMap/HashMap.playground/Contents.swift:89 | overwriting the value of the entry `find` returned answers the new value for that key and leaves every other key's answer unchanged |
| HashMapSpec.ChainSingleton | HashMap/HashMap.playground/Contents.swift:73-78 | a new one-entry chain keeps the bucket invariant |
| HashMapSpec.ChainAppend | HashMap/HashMap.playground/Contents.swift:81-86 | appending a new key that hashes here keeps the bucket invariant (keys distinct, all hash to this bucket) |
| HashMapSpec.ChainOverwrite | HashMap/HashMap.playground/Contents.swift:89 | overwriting a value in place keeps the bucket invariant |
| HashMapSpec.TableUpdate | HashMap/HashMap.playground/Contents.swift:71-90 | replacing the key's bucket by a valid chain with the key's new answer keeps every bucket valid and represents the old map updated at that key |
| HashMapSpec.EmptyTable | HashMap/HashMap.playground/Contents.swift:42 | 256 nil buckets are valid and represent the empty map |
| HashMaps.HashMap.constructor | HashMap/HashMap.playground/Contents.swift:42-43 | 256 empty buckets: a valid table holding nothing |
| HashMaps.HashMap.Get | HashMap/HashMap.playground/Contents.swift:63-69 | returns a value exactly when the key was set, and then the last value set for it; nil for a key never set, whether its bucket is empty or not |
| HashMaps.HashMap.Set | HashMap/HashMap.playground/Contents.swift:71-90 | the table stays valid and now maps the key to the value. Other buckets are unchanged. In the key's bucket an existing entry is overwritten in place (length and order kept), otherwise the new entry is appended after the old chain |
| HashMapTests.AnagramsShareBucket | HashMap/HashMap.playground/Contents.swift:112-115 | "ab" and "ba" both hash to bucket 195 |
| HashMapTests.SetThenGet | HashMap/HashMap.playground/Contents.swift:63-90 | for any valid map, after `set(key, value)` `get(key)` answers `value`, and any other key answers as before |

The XCTest cases themselves are the methods `HeapTests.TestMinHeap`, `TestMaxHeap`, `TestMinPoll` and `TestMaxPoll` (Heap lines 108-130). The hash-map cases are `HashMapTests.TestSetAndGet` with `GetFive`, and `TestCollision` (HashMap lines 96-118). Each states its expected results as assertions in its body.

## Left out

- `import UIKit`, `import XCTest` and the `defaultTestSuite.run()` calls: the test harness. Each test case is a verified method instead.
- Reference identity and aliasing of `Node`, `LinkedList` and `KeyValue` objects. A chain is the sequence of its entries in link order, and the in-place `findedKeyValue.value = value` is a sequence update. Two buckets sharing a node cannot be expressed in the model, and the code never creates such sharing.
- HashMapSpec.Find: keys are equal when their sequences of Unicode scalar values are equal. Swift's `String ==` at line 51 treats canonically equivalent strings as equal, for example "\u{2126}\u{E9}" and "\u{3A9}e\u{301}". Canonical equivalence is not modelled, and the bucket invariant's "no key occurs twice" is meant in the scalar-sequence sense.
- HashMaps.HashMap.Get: "the last value set for the key" means keys equal as scalar sequences. In Swift, after `set(A, "x")` and `set(B, "y")` with A and B canonically equivalent and in the same bucket, `get(A)` answers "y"; the model answers "x".
- HashMaps.HashMap.Set: for a key canonically equivalent to, but not equal as scalars to, a stored key in the same bucket, Swift overwrites the stored entry. The model appends a second entry.
- HashMapTests.SetThenGet: "any other key answers as before" holds for keys that differ as scalar sequences. In Swift it fails when `other` is canonically equivalent to `key` and in the same bucket.
- `KeyValue.==`: neither `get` nor `set` uses it.
- HashMapSpec.AsciiSum: the `UInt32` sum traps on overflow for very long strings. The model sums unbounded naturals, so that trap is not modelled.
- The stored `input` field is kept as a constant but is only read by the construction loop.
- Heap `insert(value)`, `remove(value)`, a `poll` returning nil on an empty heap, and a linear-probing variant of the map: the code does not contain them.
- Heaps.Heap.Poll: does not model the poll of an empty heap. It requires a non-empty array, because the code traps there.
- Polling until empty yields sorted output: the code's `poll` never shrinks the array, so this does not hold and is not stated.

## Findings

| source | as written | input that shows it | evidently intended | confidence | as-written member | corrected member |
|---|---|---|---|---|---|---|
| Heap/Heap.playground/Contents.swift:37-38, 41-42 | when the right child beats the left, `compareIndex` returns `right`, the child's value, and `bubbleDown` then uses it as an index | a max heap built from [9, 1, 5], then `poll`: the root becomes 5 and `compareIndex(leftIndex: 1, rightIndex: 2)` returns 5 for an array of length 3, so `currentArray[5]` traps. On the testMaxPoll input [5, 3, 4, 1, 2] it returns 4 without a trap and leaves [2, 3, 4, 1, 2], which is not a heap, yet the XCTest's only assertion, `poll == 5`, still holds | `return rightIndex` | not executed | HeapTests.CompareIndexAsWrittenEscapesArray, HeapTests.CompareIndexAsWrittenOnMaxPollInput | HeapSpec.CompareIndex |
