// The timer heap of src/min_heap.c on values: the slot array and the `iHeapIndex` of every node.
// The sift functions follow the moving hole of the source step by step, so that the class MinHeap
// can be tied to them loop iteration by loop iteration. What they mean is proved in HeapProofs.

module HeapModel {
  import opened TimeMath

  /** Some lines of the source miss their evident purpose. An operation that contains such a line
      takes the revision: the line as it stands, or as its context shows it was meant. */
  datatype Revision = AsWritten | AsIntended

  /** `slots` is the used part of the pointer array; `index` is the `iHeapIndex` field of every
      allocated node, -1 for a node that is not in the heap. */
  datatype Heap<N> = Heap(slots: seq<N>, index: map<N, int>)

  function Parent(i: nat): nat {
    if i == 0 then 0 else (i - 1) / 2
  }

  ghost predicate Keyed<N>(s: seq<N>, key: map<N, Timeval>) {
    forall i :: 0 <= i < |s| ==> s[i] in key
  }

  /** Every slot but the hole holds a node with a key; the hole may hold anything. */
  ghost predicate KeyedBut<N>(s: seq<N>, key: map<N, Timeval>, hole: nat) {
    forall i :: 0 <= i < |s| && i != hole ==> s[i] in key
  }

  /** `__MinheapShiftUp`: move the hole towards the root while the parent is later than `e`. */
  ghost function ShiftUp<N>(h: Heap<N>, key: map<N, Timeval>, hole: nat, e: N): Heap<N>
    requires hole < |h.slots| && KeyedBut(h.slots, key, hole) && e in key
    decreases hole
  {
    var p := Parent(hole);
    if hole != 0 && Greater(key[h.slots[p]], key[e]) then
      ShiftUp(Heap(h.slots[hole := h.slots[p]], h.index[h.slots[p] := hole]), key, p, e)
    else
      Heap(h.slots[hole := e], h.index[e := hole])
  }

  /** The child that the sift-down compares with: the earlier one, the right one on a tie, and the
      left one when the right one is outside the array. */
  ghost function MinChild<N>(s: seq<N>, key: map<N, Timeval>, hole: nat): nat
    requires 2 * (hole + 1) <= |s| && Keyed(s, key)
  {
    var right := 2 * (hole + 1);
    if right == |s| || Greater(key[s[right]], key[s[right - 1]]) then right - 1 else right
  }

  /** `__MinheapShiftDown`: move the hole towards the leaves while `e` is later than the smaller
      child. The scan runs over the whole array, including the last slot, which still holds `e`. */
  ghost function ShiftDown<N>(h: Heap<N>, key: map<N, Timeval>, hole: nat, e: N): Heap<N>
    requires hole < |h.slots| && Keyed(h.slots, key) && e in key
    decreases |h.slots| - hole
  {
    if 2 * (hole + 1) <= |h.slots| then
      var c := MinChild(h.slots, key, hole);
      if !Greater(key[e], key[h.slots[c]]) || Greater(key[h.slots[c]], key[e]) then
        Heap(h.slots[hole := e], h.index[e := hole])
      else
        ShiftDown(Heap(h.slots[hole := h.slots[c]], h.index[h.slots[c] := hole]), key, c, e)
    else
      Heap(h.slots[hole := e], h.index[e := hole])
  }

  /** `MinHeapPush` */
  ghost function Push<N>(h: Heap<N>, key: map<N, Timeval>, e: N): Heap<N>
    requires Keyed(h.slots, key) && e in key
  {
    ShiftUp(Heap(h.slots + [e], h.index), key, |h.slots|, e)
  }

  /** `MinheapPop` on a heap that is not empty; the popped node is `h.slots[0]`. */
  ghost function Pop<N>(h: Heap<N>, key: map<N, Timeval>): Heap<N>
    requires Keyed(h.slots, key) && h.slots != []
  {
    var n := |h.slots|;
    var r := ShiftDown(h, key, 0, h.slots[n - 1]);
    Heap(DropLast(r.slots), r.index[h.slots[0] := -1])
  }

  ghost function DropLast<T>(s: seq<T>): seq<T> {
    if s == [] then [] else s[..|s| - 1]
  }

  /** The test by which `MinheapErase` chooses to sift the last node up from slot `i`. */
  ghost predicate SiftsUp<N>(s: seq<N>, key: map<N, Timeval>, i: nat)
    requires i < |s| && Keyed(s, key)
  {
    i > 0 && Greater(key[s[Parent(i)]], key[s[|s| - 1]])
  }

  /** A node that may be handed to `MinheapErase`: its index is -1 or a slot of the array. */
  predicate Erasable<N>(h: Heap<N>, d: N) {
    d in h.index && (h.index[d] == -1 || 0 <= h.index[d] < |h.slots|)
  }

  /** `MinheapErase`. In the sift-up branch the source resets the index of the last node, which has
      just been placed in the heap; the other branch shows that the deleted node was meant. A node
      with index -1 is left alone (the source then reports failure). */
  ghost function Erase<N>(h: Heap<N>, key: map<N, Timeval>, d: N, rev: Revision): Heap<N>
    requires Keyed(h.slots, key) && Erasable(h, d)
  {
    var i := h.index[d];
    if i == -1 then h
    else
      var last := h.slots[|h.slots| - 1];
      if SiftsUp(h.slots, key, i) then
        var r := ShiftUp(h, key, i, last);
        Heap(DropLast(r.slots), r.index[(if rev.AsWritten? then last else d) := -1])
      else
        var r := ShiftDown(h, key, i, last);
        Heap(DropLast(r.slots), r.index[d := -1])
  }

  /** `MinheapGetTopElement`: no element for an empty heap. */
  function Top<N>(h: Heap<N>): seq<N> {
    if h.slots == [] then [] else [h.slots[0]]
  }

  // ---------------------------------------------------------------------------------------------
  // What a heap has to satisfy

  /** No node is earlier than its parent. */
  ghost predicate Ordered<N>(s: seq<N>, key: map<N, Timeval>)
    requires Keyed(s, key)
  {
    forall c {:trigger Parent(c)} :: 0 < c < |s| ==> !Greater(key[s[Parent(c)]], key[s[c]])
  }

  /** `index` and `slots` describe the same bijection, and every node has a key. */
  ghost predicate Indexed<N>(h: Heap<N>, key: map<N, Timeval>) {
    && h.index.Keys == key.Keys
    && (forall i :: 0 <= i < |h.slots| ==> h.slots[i] in h.index && h.index[h.slots[i]] == i)
    && (forall n :: n in h.index ==>
          h.index[n] == -1 || (0 <= h.index[n] < |h.slots| && h.slots[h.index[n]] == n))
  }

  ghost predicate Valid<N>(h: Heap<N>, key: map<N, Timeval>) {
    Indexed(h, key) && Ordered(h.slots, key)
  }

  /** The nodes in the heap. */
  ghost function Members<N>(h: Heap<N>): set<N> {
    set n | n in h.slots
  }
}
