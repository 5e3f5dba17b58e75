// The timer heap as the source has it: a growing array of pointers to nodes, each of which stores its
// own slot. Every method is tied to the value model of HeapModel.

module MinHeap {
  import opened TimeMath
  import opened HeapModel
  import opened HeapProofs
  import opened HeapRuns

  /** `TimeoutEvent` */
  class TimeoutEvent {
    const fd: int
    var heapIndex: int
    var interval: Timeval
    var timeout: Timeval
    /** `pstCallbackArg`, the connection that the expiry callback is called with. */
    var callbackArg: object?

    /** malloc followed by `MinheapTimeoutEventInit`. */
    constructor (fd: int)
      ensures this.fd == fd && heapIndex == -1 && callbackArg == null && timeout == Timeval(0, 0)
    {
      this.fd := fd;
      heapIndex, callbackArg := -1, null;
      interval, timeout := Timeval(0, 0), Timeval(0, 0);
    }
  }

  /** `MinHeapHeader` */
  class MinHeapHeader {
    var header: array<TimeoutEvent>
    var nodeUsed: nat
    var nodeCapacity: nat
    /** All allocated nodes, in the heap or not. */
    ghost var nodes: set<TimeoutEvent>

    ghost function Index(): map<TimeoutEvent, int>
      reads this`nodes, nodes`heapIndex
    {
      map n | n in nodes :: n.heapIndex
    }

    ghost function Keys(): map<TimeoutEvent, Timeval>
      reads this`nodes, nodes`timeout
    {
      map n | n in nodes :: n.timeout
    }

    /** The first `n` slots and all indices. */
    ghost function Slots(n: nat): Heap<TimeoutEvent>
      requires n <= header.Length
      reads this`header, this`nodes, header, nodes`heapIndex
    {
      Heap(header[..n], Index())
    }

    /** Memory safety: the used slots lie in the array, whose length is the capacity on record. */
    ghost predicate Allocated()
      reads this, header
    {
      nodeUsed <= nodeCapacity == header.Length
    }

    ghost function Model(): Heap<TimeoutEvent>
      requires Allocated()
      reads this, header, nodes`heapIndex
    {
      Slots(nodeUsed)
    }

    ghost predicate Valid()
      reads this, header, nodes`heapIndex, nodes`timeout
    {
      Allocated() && HeapModel.Valid(Model(), Keys())
    }

    /** The array and the nodes are as the value `s` says. */
    ghost predicate Holds(s: Timers<TimeoutEvent>)
      reads this, header, nodes`heapIndex, nodes`timeout
    {
      Allocated() && Model() == s.heap && Keys() == s.key
    }

    /** `MinheapCreate` */
    constructor ()
      ensures Valid() && nodeUsed == 0 && nodeCapacity == 0 && nodes == {} && fresh(header)
    {
      header := new TimeoutEvent[0];
      nodeUsed, nodeCapacity := 0, 0;
      nodes := {};
    }

    /** The pair of stores that both sift loops and their ends make: `n` into slot `i`, `i` into `n`. */
    method Store(i: nat, n: TimeoutEvent, ghost m: nat)
      requires i < m <= header.Length && n in nodes
      modifies header, n`heapIndex
      ensures Slots(m) == old(Heap(header[..m][i := n], Index()[n := i])) && Keys() == old(Keys())
      ensures header[i] == n && forall j :: 0 <= j < header.Length && j != i ==> header[j] == old(header[j])
      ensures header[m..] == old(header[m..])
    {
      header[i] := n;
      header[i].heapIndex := i;
      assert header[..m] == old(header[..m])[i := n];
      assert Index() == old(Index())[n := i];
    }

    /** `__MinheapShiftUp` over the first `n` slots. */
    method ShiftUp(hole: nat, e: TimeoutEvent, ghost n: nat)
      requires hole < n <= header.Length
      requires e in nodes && forall i :: 0 <= i < n && i != hole ==> header[i] in nodes
      modifies header, nodes`heapIndex
      ensures Slots(n) == old(HeapModel.ShiftUp(Slots(n), Keys(), hole, e)) && Keys() == old(Keys())
      ensures header[n..] == old(header[n..])
    {
      hide HeapModel.ShiftUp, HeapModel.ShiftDown;
      var holeIndex: nat := hole;
      var parentIndex := UnsignedParent(holeIndex);
      ghost var key := Keys();
      ghost var goal := HeapModel.ShiftUp(Slots(n), key, hole, e);
      while holeIndex != 0 && Greater(header[parentIndex].timeout, e.timeout)
        invariant holeIndex < n && parentIndex == UnsignedParent(holeIndex)
        invariant forall i :: 0 <= i < n && i != holeIndex ==> header[i] in nodes
        invariant header[n..] == old(header[n..]) && Keys() == key
        invariant HeapModel.ShiftUp(Slots(n), key, holeIndex, e) == goal
        decreases holeIndex
      {
        ghost var before := Slots(n);
        ShiftUpOnce(before, key, holeIndex, e);
        Store(holeIndex, header[parentIndex], n);
        holeIndex := parentIndex;
        parentIndex := UnsignedParent(holeIndex);
      }
      ShiftUpStops(Slots(n), key, holeIndex, e);
      Store(holeIndex, e, n);
    }

    /** `__MinheapShiftDown`, which scans all used slots. */
    method ShiftDown(hole: nat, e: TimeoutEvent)
      requires hole < nodeUsed <= header.Length
      requires e in nodes && forall i :: 0 <= i < nodeUsed ==> header[i] in nodes
      modifies header, nodes`heapIndex
      ensures Slots(nodeUsed) == old(HeapModel.ShiftDown(Slots(nodeUsed), Keys(), hole, e)) && Keys() == old(Keys())
    {
      hide HeapModel.ShiftUp, HeapModel.ShiftDown;
      var holeIndex: nat := hole;
      var minChildIndex: nat := 2 * (holeIndex + 1);
      ghost var key := Keys();
      ghost var goal := HeapModel.ShiftDown(Slots(nodeUsed), key, hole, e);
      while minChildIndex <= nodeUsed
        invariant holeIndex < nodeUsed && minChildIndex == 2 * (holeIndex + 1)
        invariant forall i :: 0 <= i < nodeUsed ==> header[i] in nodes
        invariant HeapModel.ShiftDown(Slots(nodeUsed), key, holeIndex, e) == goal && Keys() == key
        decreases nodeUsed - holeIndex
      {
        ghost var before := Slots(nodeUsed);
        if minChildIndex == nodeUsed {
          minChildIndex := minChildIndex - 1;
        } else if Greater(header[minChildIndex].timeout, header[minChildIndex - 1].timeout) {
          minChildIndex := minChildIndex - 1;
        }
        assert minChildIndex == MinChild(before.slots, key, holeIndex);
        if !Greater(e.timeout, header[minChildIndex].timeout) {
          break;
        }
        if Greater(header[minChildIndex].timeout, e.timeout) {
          break;
        }
        ShiftDownOnce(before, key, holeIndex, e);
        Store(holeIndex, header[minChildIndex], nodeUsed);
        holeIndex := minChildIndex;
        minChildIndex := 2 * (holeIndex + 1);
      }
      ShiftDownStops(Slots(nodeUsed), key, holeIndex, e);
      Store(holeIndex, e, nodeUsed);
    }

    /** Every used slot points to an allocated node. */
    ghost predicate Sane()
      reads this, header, nodes`heapIndex, nodes`timeout
    {
      Allocated() && Keyed(Model().slots, Keys())
    }

    /** `MinheapReserveSize`: realloc keeps the old slots; what is in the new ones is arbitrary, here `any`. */
    method ReserveSize(size: nat, any: TimeoutEvent)
      requires Allocated()
      modifies this`header, this`nodeCapacity
      ensures Allocated() && nodeCapacity == Reserved(old(nodeCapacity), size)
      ensures header[..nodeUsed] == old(header[..nodeUsed])
      ensures if size <= old(nodeCapacity) then header == old(header) else fresh(header)
    {
      if size <= nodeCapacity {
        return;
      }
      var newSize := if nodeCapacity != 0 then nodeCapacity * 2 else MINHEAP_INIT_SIZE;
      if newSize < size {
        newSize := size;
      }
      var old_ := header;
      header := new TimeoutEvent[newSize](i requires 0 <= i reads old_ => if i < old_.Length then old_[i] else any);
      nodeCapacity := newSize;
    }

    /** `MinHeapPush` */
    method Push(e: TimeoutEvent)
      requires Sane() && e in nodes
      modifies this`header, this`nodeCapacity, this`nodeUsed, header, nodes`heapIndex
      ensures Allocated() && (header == old(header) || fresh(header))
      ensures Model() == old(HeapModel.Push(Model(), Keys(), e)) && Keys() == old(Keys())
      ensures nodeCapacity == Reserved(old(nodeCapacity), old(nodeUsed) + 1)
      ensures old(Valid()) && old(e.heapIndex) == -1 ==> Valid()
    {
      hide HeapModel.Push, HeapModel.ShiftUp;
      ghost var h, key := Model(), Keys();
      ghost var goal := HeapModel.Push(h, key, e);
      ReserveSize(nodeUsed + 1, e);
      assert header[..nodeUsed + 1] == h.slots + [header[nodeUsed]] && Index() == h.index && Keys() == key;
      HoleContentIrrelevant(h, key, header[nodeUsed], e);
      ShiftUp(nodeUsed, e, nodeUsed + 1);
      nodeUsed := nodeUsed + 1;
      assert Model() == goal && Keys() == key;
      if HeapModel.Valid(h, key) && h.index[e] == -1 {
        PushCorrect(h, key, e);
      }
    }

    lemma HeldNodes(s: Timers<TimeoutEvent>)
      requires Holds(s)
      ensures s.key.Keys == nodes
    {
      assert Keys().Keys == nodes;
    }

    lemma HeldValid(s: Timers<TimeoutEvent>)
      requires Holds(s) && TimersValid(s)
      ensures Valid()
    {}

    /** A node initialised by MinheapTimeoutEventInit joins the allocated ones. */
    ghost method Adopt(n: TimeoutEvent, s: Timers<TimeoutEvent>, rev: Revision)
      requires Holds(s) && TimersValid(s) && n !in nodes && n.heapIndex == -1 && n.timeout == Timeval(0, 0)
      modifies this`nodes
      ensures Holds(Do(s, Init(n), rev)) && nodes == old(nodes) + {n}
    {
      nodes := nodes + {n};
      assert Keys() == s.key[n := Timeval(0, 0)] && Index() == s.heap.index[n := -1];
    }

    /** `free` of a node. */
    ghost method Free(n: TimeoutEvent, s: Timers<TimeoutEvent>)
      requires Holds(s) && n in nodes
      modifies this`nodes
      ensures Holds(FreeNode(s, n)) && nodes == old(nodes) - {n}
    {
      nodes := nodes - {n};
      assert Keys() == s.key - {n} && Index() == s.heap.index - {n};
    }

    /** The end of every removal: one slot less, and the index of one node reset. */
    method Shrink(n: TimeoutEvent)
      requires Allocated() && nodeUsed > 0 && n in nodes
      modifies this`nodeUsed, n`heapIndex
      ensures Allocated() && Model() == old(Heap(DropLast(Model().slots), Index()[n := -1])) && Keys() == old(Keys())
    {
      nodeUsed := nodeUsed - 1;
      n.heapIndex := -1;
      assert header[..nodeUsed] == DropLast(old(header[..nodeUsed]));
    }

    /** `MinheapPop` */
    method Pop() returns (top: TimeoutEvent?)
      requires Valid()
      modifies this`nodeUsed, header, nodes`heapIndex
      ensures Valid()
      ensures old(nodeUsed) == 0 ==> top == null && Model() == old(Model())
      ensures old(nodeUsed) > 0 ==> top == old(header[0]) && Model() == old(HeapModel.Pop(Model(), Keys()))
      ensures Keys() == old(Keys())
    {
      if nodeUsed != 0 {
        ghost var h, key := Model(), Keys();
        top := header[0];
        var last := header[nodeUsed - 1];
        ShiftDown(0, last);
        Shrink(top);
        PopCorrect(h, key);
        assert Model() == HeapModel.Pop(h, key) && Keys() == key;
        return top;
      }
      return null;
    }

    /** `MinheapErase`; `false` is the failure it reports for a node that is not in the heap. The sift-up
        branch resets the index of the moved last node, where the other branch resets that of `d`. */
    method Erase(d: TimeoutEvent, rev: Revision) returns (ok: bool)
      requires Sane() && d in nodes && Erasable(Model(), d)
      modifies this`nodeUsed, header, nodes`heapIndex
      ensures Allocated() && ok == (old(d.heapIndex) != -1)
      ensures Model() == old(HeapModel.Erase(Model(), Keys(), d, rev)) && Keys() == old(Keys())
    {
      hide HeapModel.Erase, HeapModel.ShiftUp, HeapModel.ShiftDown;
      if d.heapIndex != -1 {
        ghost var h, key := Model(), Keys();
        EraseIsSift(h, key, d, rev);
        var last := header[nodeUsed - 1];
        var parentIndex := CDiv(d.heapIndex - 1, 2);
        if d.heapIndex > 0 && Greater(header[parentIndex].timeout, last.timeout) {
          ShiftUp(d.heapIndex, last, nodeUsed);
          assert Model() == Sifted(h, key, h.index[d]);
          Shrink(if rev.AsWritten? then last else d);
        } else {
          ShiftDown(d.heapIndex, last);
          assert Model() == Sifted(h, key, h.index[d]);
          Shrink(d);
        }
        return true;
      }
      EraseOutside(Model(), Keys(), d, rev);
      return false;
    }

    /** `MinheapGetTopElement` */
    function GetTopElement(): (top: TimeoutEvent?)
      requires Valid()
      reads this, header, nodes`heapIndex, nodes`timeout
      ensures if nodeUsed == 0 then top == null else top != null && Top(Model()) == [top]
      ensures top != null ==> forall n :: n in Members(Model()) ==> !Greater(top.timeout, n.timeout)
    {
      assert nodeUsed != 0 ==> forall n :: n in Members(Model()) ==> !Greater(header[0].timeout, n.timeout) by {
        forall n | n in Members(Model()) ensures !Greater(header[0].timeout, n.timeout) {
          var i :| 0 <= i < nodeUsed && header[i] == n;
          TopIsEarliest(header[..nodeUsed], Keys(), i);
        }
      }
      if nodeUsed != 0 then header[0] else null
    }
  }

  /** The slot that a push fills may hold anything before. */
  lemma HoleContentIrrelevant<N>(h: Heap<N>, key: map<N, Timeval>, x: N, e: N)
    requires Keyed(h.slots, key) && e in key
    ensures HeapModel.ShiftUp(Heap(h.slots + [x], h.index), key, |h.slots|, e) == HeapModel.Push(h, key, e)
  {
    var n := |h.slots|;
    assert (h.slots + [x])[n := e] == (h.slots + [e])[n := e];
    if n != 0 {
      var p := h.slots[Parent(n)];
      assert (h.slots + [x])[n := p] == (h.slots + [e])[n := p];
    }
  }

  /** `(hole - 1) / 2` in 32-bit unsigned arithmetic; it wraps around for the root, where it is not used. */
  function UnsignedParent(hole: nat): nat {
    if hole == 0 then 0x7FFF_FFFF else (hole - 1) / 2
  }
}
