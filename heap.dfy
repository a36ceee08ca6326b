/**
 * The Swift `Heap` class: an array-backed binary heap, max or min by a flag
 * fixed at construction. `currentArray` is updated in place by the
 * construction loop, sift-up, the root overwrite of `poll` and sift-down.
 */
module Heaps {
  import opened Wrappers
  import opened HeapSpec

  class Heap {
    const isMax: bool
    const input: seq<int>
    var currentArray: seq<int>

    /** Object invariant: the heap property. */
    ghost predicate Valid()
      reads this
    {
      IsHeap(isMax, currentArray)
    }

    /** `init(isMax:input:)`: store the flag and the input, then run `update`. */
    constructor (isMax: bool, input: seq<int>)
      ensures this.isMax == isMax && this.input == input
      ensures Valid()
      ensures currentArray == InsertAll(isMax, [], input)
      ensures |currentArray| == |input| && multiset(currentArray) == multiset(input)
    {
      this.isMax := isMax;
      this.input := input;
      currentArray := [];
      new;
      Update();
      BuildIsHeapPermutation(isMax, input);
    }

    /** `output`: the backing array as it stands, which is always a heap. */
    function Output(): (r: seq<int>)
      reads this
      requires Valid()
      ensures IsHeap(isMax, r)
    {
      currentArray
    }

    /**
     * `poll`: return the root, copy the last element over it and sift it down.
     * The array keeps its length. An empty array traps in `bubbleDown(0)`.
     */
    method Poll() returns (r: Option<int>)
      requires Valid() && |currentArray| > 0
      modifies this
      ensures Valid()
      ensures r == Some(old(currentArray)[0])
      ensures forall k :: 0 <= k < |old(currentArray)| ==> Dominates(isMax, r.value, old(currentArray)[k])
      ensures |currentArray| == |old(currentArray)|
      ensures multiset(currentArray) ==
        multiset(old(currentArray)) - multiset{old(currentArray)[0]} + multiset{old(currentArray)[|old(currentArray)| - 1]}
      ensures currentArray == PollArray(isMax, old(currentArray))
    {
      RootIsExtreme(isMax, currentArray);
      PollPreservesHeap(isMax, currentArray);
      PollArrayElements(isMax, currentArray);
      var rootValue := if currentArray == [] then None else Some(currentArray[0]);
      LastValueToFirstValue();
      BubbleDown(0);
      r := rootValue;
    }

    /** `lastValueToFirstValue`: overwrite index 0 with the last element; nothing to do when empty. */
    method LastValueToFirstValue()
      modifies this
      ensures old(currentArray) == [] ==> currentArray == []
      ensures old(currentArray) != [] ==>
        currentArray == old(currentArray)[0 := old(currentArray)[|old(currentArray)| - 1]]
    {
      if currentArray == [] {
        return;
      }
      var last := currentArray[|currentArray| - 1];
      currentArray := currentArray[0 := last];
    }

    /** `bubbleDown(_:)`: swap with the chosen child while it beats the current value. */
    method BubbleDown(index: nat)
      requires index < |currentArray|
      modifies this
      ensures currentArray == SiftDown(isMax, old(currentArray), index)
      decreases |currentArray| - index
    {
      var currentValue := currentArray[index];
      var leftChildIndex := (index * 2) + 1;
      var rightChildIndex := (index * 2) + 2;
      var childIndex := CompareIndex(isMax, currentArray, leftChildIndex, rightChildIndex);
      if childIndex.None? {
        return;
      }
      var c := childIndex.value;
      if (isMax && currentArray[c] > currentValue) || (!isMax && currentArray[c] < currentValue) {
        SiftDownUnfold(isMax, currentArray, index, c);
        currentArray := Swap(currentArray, c, index);
        BubbleDown(c);
      }
    }

    /** `update`: append each input element in order and sift it up. */
    method Update()
      modifies this
      ensures currentArray == InsertAll(isMax, old(currentArray), input)
    {
      ghost var start := currentArray;
      for k := 0 to |input|
        invariant InsertAll(isMax, currentArray, input[k..]) == InsertAll(isMax, start, input)
      {
        ghost var prev := currentArray;
        var x := input[k];
        assert InsertAll(isMax, prev, input[k..]) == InsertAll(isMax, Insert(isMax, prev, x), input[k + 1..]) by {
          assert input[k..][0] == x && input[k..][1..] == input[k + 1..];
        }
        var appended := currentArray + [x];
        currentArray := appended;
        SwapIfNeeded(|appended| - 1);
        assert currentArray == Insert(isMax, prev, x) by {
          assert |appended| - 1 == |prev|;
        }
      }
    }

    /** `swapIfNeeded(index:)`: swap with the parent while the parent fails to dominate, up to the root. */
    method SwapIfNeeded(index: nat)
      requires index < |currentArray|
      modifies this
      ensures currentArray == SiftUp(isMax, old(currentArray), index)
      decreases index
    {
      if index == 0 {
        return;
      }
      var parentIndex: nat := ParentIndex(index);
      var parentValue := currentArray[parentIndex];
      var currentValue := currentArray[index];
      if IsNeedSwap(isMax, parentValue, currentValue) {
        currentArray := Swap(currentArray, parentIndex, index);
        SwapIfNeeded(parentIndex);
      }
    }
  }
}
