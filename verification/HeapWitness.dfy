// A run of timer registrations with increasing deadlines, followed by five unregistrations, in which
// the last erase takes the source's sift-up branch: as written, it leaves the heap inconsistent.

module HeapWitness {
  import opened TimeMath
  import opened HeapModel
  import opened HeapProofs
  import opened HeapRuns

  /** Node i has deadline i, for the nodes 0 .. 14. */
  ghost predicate SecondsKey(key: map<int, Timeval>) {
    forall i :: 0 <= i < 15 ==> i in key && key[i] == Timeval(i, 0)
  }

  predicate Small(s: seq<int>) {
    forall i :: 0 <= i < |s| ==> 0 <= s[i] < 15
  }

  /** The sift-down on nodes that are their own deadlines. */
  function Down(s: seq<int>, hole: nat, e: int): seq<int>
    requires hole < |s|
    decreases |s| - hole
  {
    var right := 2 * (hole + 1);
    if right > |s| then s[hole := e]
    else
      var c := if right == |s| || s[right] > s[right - 1] then right - 1 else right;
      if e <= s[c] then s[hole := e] else Down(s[hole := s[c]], c, e)
  }

  lemma {:induction false} ShiftDownIsDown(h: Heap<int>, key: map<int, Timeval>, hole: nat, e: int)
    requires hole < |h.slots| && SecondsKey(key) && Small(h.slots) && 0 <= e < 15
    ensures Keyed(h.slots, key) && ShiftDown(h, key, hole, e).slots == Down(h.slots, hole, e)
    decreases |h.slots| - hole
  {
    if 2 * (hole + 1) <= |h.slots| {
      var c := MinChild(h.slots, key, hole);
      if key[e].sec > key[h.slots[c]].sec {
        ShiftDownIsDown(MoveHole(h, hole, c), key, c, e);
      }
    }
  }

  /** A valid heap of these slots in which node i has deadline i. */
  ghost predicate Looks(s: Timers<int>, slots: seq<int>) {
    TimersValid(s) && s.heap.slots == slots && SecondsKey(s.key)
  }

  /** Unregistering the node at slot `i` when the last node is no earlier than the parent of that slot. */
  lemma EraseDown(s: Timers<int>, slots: seq<int>, i: nat)
    requires Looks(s, slots) && Small(slots) && i < |slots|
    requires i == 0 || slots[Parent(i)] <= slots[|slots| - 1]
    ensures Legal(s, Unregister(slots[i])) && Sound(s, Unregister(slots[i]), AsWritten)
    ensures Looks(Do(s, Unregister(slots[i]), AsWritten), DropLast(Down(slots, i, slots[|slots| - 1])))
  {
    hide HeapModel.Valid, Indexed, Ordered, Erase, ShiftUp, ShiftDown, HeapRuns.Pending;
    SlotKnown(s, i);
    assert !SiftsUp(slots, s.key, i);
    UnregisterStep(s, slots[i], AsWritten);
    EraseIsSift(s.heap, s.key, slots[i], AsWritten);
    ShiftDownIsDown(s.heap, s.key, i, slots[|slots| - 1]);
  }

  /** Pushing a node that is no earlier than its parent-to-be leaves it in the last slot. */
  lemma PushStays<N>(h: Heap<N>, key: map<N, Timeval>, e: N)
    requires Keyed(h.slots, key) && e in key
    requires h.slots == [] || !Greater(key[h.slots[Parent(|h.slots|)]], key[e])
    ensures Push(h, key, e).slots == h.slots + [e]
  {
    assert (h.slots + [e])[|h.slots| := e] == h.slots + [e];
  }

  /** The nodes 0 .. n-1 are in the heap in this order, node i with deadline i. */
  ghost predicate InOrder(s: Timers<int>, n: nat) {
    && TimersValid(s) && |s.heap.slots| == n
    && (forall i :: i in s.key <==> 0 <= i < n)
    && (forall i :: 0 <= i < n ==> s.heap.slots[i] == i && s.key[i] == Timeval(i, 0))
  }

  lemma OutsideIsSound(s: Timers<int>, n: int, t: Timeval, rev: Revision)
    requires TimersValid(s) && Legal(s, Register(n, t)) && s.heap.index[n] == -1
    ensures Sound(s, Register(n, t), rev)
  {}

  lemma InitLatest(s: Timers<int>, n: nat)
    requires InOrder(s, n)
    ensures TimersValid(s) && Legal(s, Init(n))
    ensures var t := Do(s, Init(n), AsWritten);
      && TimersValid(t) && t.heap.slots == s.heap.slots && t.key == s.key[n := Timeval(0, 0)]
      && t.heap.index.Keys == t.key.Keys && t.heap.index[n] == -1
  {
    hide HeapRuns.Pending;
    InitKeepsValid(s, n, AsWritten);
  }

  lemma PushLatest(s: Timers<int>, n: nat)
    requires InOrder(s, n)
    ensures TimersValid(s) && Legal(s, Init(n))
    ensures var t, d := Do(s, Init(n), AsWritten), Timeval(n, 0);
      && TimersValid(t)
      && Legal(t, Register(n, d)) && Sound(t, Register(n, d), AsWritten)
      && InOrder(Do(t, Register(n, d), AsWritten), n + 1)
  {
    hide Push, Erase, Ordered, Indexed, HeapModel.Valid, HeapRuns.Pending, Sound;
    InitLatest(s, n);
    var t, d := Do(s, Init(n), AsWritten), Timeval(n, 0);
    OutsideIsSound(t, n, d, AsWritten);
    RegisterStep(t, n, d, AsWritten);
    var key := t.key[n := d];
    OverwrittenKey(t.heap, t.key, n, d, AsWritten);
    EraseOutside(t.heap, key, n, AsWritten);
    PushStays(t.heap, key, n);
  }

  /** Taking the node `n` in slot `i` out of `a` by sifting the last node down gives `b`. */
  ghost predicate Closes(a: seq<int>, i: nat, n: int, b: seq<int>) {
    && Small(a) && i < |a| && a[i] == n
    && (i == 0 || a[Parent(i)] <= a[|a| - 1])
    && DropLast(Down(a, i, a[|a| - 1])) == b
  }

  lemma Step1()
    ensures Closes([0, 1, 2, 3, 4, 5, 6, 7, 8, 9, 10, 11, 12, 13, 14], 2, 2, [0, 1, 5, 3, 4, 11, 6, 7, 8, 9, 10, 14, 12, 13])
  {
    assert DropLast(Down([0, 1, 2, 3, 4, 5, 6, 7, 8, 9, 10, 11, 12, 13, 14], 2, 14)) == [0, 1, 5, 3, 4, 11, 6, 7, 8, 9, 10, 14, 12, 13];
  }

  lemma Step2()
    ensures Closes([0, 1, 5, 3, 4, 11, 6, 7, 8, 9, 10, 14, 12, 13], 2, 5, [0, 1, 6, 3, 4, 11, 13, 7, 8, 9, 10, 14, 12])
  {
    assert DropLast(Down([0, 1, 5, 3, 4, 11, 6, 7, 8, 9, 10, 14, 12, 13], 2, 13)) == [0, 1, 6, 3, 4, 11, 13, 7, 8, 9, 10, 14, 12];
  }

  lemma Step3()
    ensures Closes([0, 1, 6, 3, 4, 11, 13, 7, 8, 9, 10, 14, 12], 2, 6, [0, 1, 11, 3, 4, 12, 13, 7, 8, 9, 10, 14])
  {
    assert DropLast(Down([0, 1, 6, 3, 4, 11, 13, 7, 8, 9, 10, 14, 12], 2, 12)) == [0, 1, 11, 3, 4, 12, 13, 7, 8, 9, 10, 14];
  }

  lemma Step4()
    ensures Closes([0, 1, 11, 3, 4, 12, 13, 7, 8, 9, 10, 14], 11, 14, [0, 1, 11, 3, 4, 12, 13, 7, 8, 9, 10])
  {
    assert DropLast(Down([0, 1, 11, 3, 4, 12, 13, 7, 8, 9, 10, 14], 11, 14)) == [0, 1, 11, 3, 4, 12, 13, 7, 8, 9, 10];
  }

  const FINAL := [0, 1, 11, 3, 4, 12, 13, 7, 8, 9, 10]

  /** The calls are legal and sound from `s` on and end in a valid heap with these slots. */
  ghost predicate EndsIn(s: Timers<int>, cs: seq<Call<int>>, last: seq<int>) {
    && TimersValid(s) && LegalRun(s, cs, AsWritten)
    && var ss := States(s, cs, AsWritten); ss != [] && Looks(ss[|ss| - 1], last)
  }

  lemma Prepend(s: Timers<int>, c: Call<int>, cs: seq<Call<int>>, last: seq<int>)
    requires TimersValid(s) && Legal(s, c) && Sound(s, c, AsWritten) && EndsIn(Do(s, c, AsWritten), cs, last)
    ensures EndsIn(s, [c] + cs, last)
  {
    assert ([c] + cs)[1..] == cs;
  }

  lemma FourCloses(s: Timers<int>, a: seq<int>, b: seq<int>, c: seq<int>, d: seq<int>, e: seq<int>) returns (cs: seq<Call<int>>)
    requires Looks(s, a)
    requires Closes(a, 2, 2, b) && Closes(b, 2, 5, c) && Closes(c, 2, 6, d) && Closes(d, 11, 14, e)
    ensures EndsIn(s, cs, e)
  {
    EraseDown(s, a, 2);
    var s1 := Do(s, Unregister(2), AsWritten);
    EraseDown(s1, b, 2);
    var s2 := Do(s1, Unregister(5), AsWritten);
    EraseDown(s2, c, 2);
    var s3 := Do(s2, Unregister(6), AsWritten);
    EraseDown(s3, d, 11);
    cs := [Unregister(14)] + [];
    Prepend(s3, Unregister(14), [], e);
    Prepend(s2, Unregister(6), cs, e);
    cs := [Unregister(6)] + cs;
    Prepend(s1, Unregister(5), cs, e);
    cs := [Unregister(5)] + cs;
    Prepend(s, Unregister(2), cs, e);
    cs := [Unregister(2)] + cs;
  }

  lemma AllRegistered(s: Timers<int>)
    requires InOrder(s, 15)
    ensures Looks(s, [0, 1, 2, 3, 4, 5, 6, 7, 8, 9, 10, 11, 12, 13, 14])
  {}

  /** From n registered nodes: register the others up to fifteen, then unregister four. */
  lemma {:induction false} FromRegistered(s: Timers<int>, n: nat) returns (cs: seq<Call<int>>)
    requires n <= 15 && InOrder(s, n)
    ensures EndsIn(s, cs, FINAL)
    decreases 15 - n
  {
    hide EndsIn, Looks, Closes, Do, Legal, Sound, InOrder, HeapModel.Valid;
    if n == 15 {
      AllRegistered(s);
      Step1(); Step2(); Step3(); Step4();
      cs := FourCloses(s, [0, 1, 2, 3, 4, 5, 6, 7, 8, 9, 10, 11, 12, 13, 14],
                       [0, 1, 5, 3, 4, 11, 6, 7, 8, 9, 10, 14, 12, 13],
                       [0, 1, 6, 3, 4, 11, 13, 7, 8, 9, 10, 14, 12],
                       [0, 1, 11, 3, 4, 12, 13, 7, 8, 9, 10, 14], FINAL);
    } else {
      PushLatest(s, n);
      var t, d := Do(s, Init(n), AsWritten), Timeval(n, 0);
      cs := FromRegistered(Do(t, Register(n, d), AsWritten), n + 1);
      Prepend(t, Register(n, d), cs, FINAL);
      cs := [Register(n, d)] + cs;
      Prepend(s, Init(n), cs, FINAL);
      cs := [Init(n)] + cs;
    }
  }

  lemma SlotKnown(s: Timers<int>, i: nat)
    requires TimersValid(s) && i < |s.heap.slots|
    ensures Keyed(s.heap.slots, s.key) && Indexed(s.heap, s.key) && s.heap.index.Keys == s.key.Keys
    ensures s.heap.slots[i] in s.heap.index && s.heap.index[s.heap.slots[i]] == i
  {}

  lemma FinalSiftsUp(key: map<int, Timeval>)
    requires SecondsKey(key)
    ensures Keyed(FINAL, key) && SiftsUp(FINAL, key, 5)
  {
    assert Parent(5) == 2;
  }

  /** Unregistering any node by way of the sift-up branch breaks the heap at its last node. */
  lemma SiftingBreaks(s: Timers<int>, n: int)
    requires TimersValid(s) && n in s.key && s.heap.index[n] != -1 && SiftsUp(s.heap.slots, s.key, s.heap.index[n])
    ensures Legal(s, Unregister(n)) && !Sound(s, Unregister(n), AsWritten)
    ensures Broken(Do(s, Unregister(n), AsWritten), s.heap.slots[|s.heap.slots| - 1])
  {
    hide Erase, Ordered, MayErase, SiftsUp;
    CallValidIff(s, Unregister(n), AsWritten);
    ValidMayErase(s.heap, s.key, n);
    EraseContents(s.heap, s.key, n, AsWritten);
    EraseExact(s.heap, s.key, n, AsWritten);
    EraseOutside(Erase(s.heap, s.key, n, AsWritten), s.key, s.heap.slots[|s.heap.slots| - 1], AsWritten);
  }

  lemma LastErase(s: Timers<int>)
    requires Looks(s, FINAL)
    ensures TimersValid(s) && Legal(s, Unregister(12)) && !Sound(s, Unregister(12), AsWritten)
    ensures Broken(Do(s, Unregister(12), AsWritten), 10)
  {
    hide Broken, Sound, Do, Indexed, HeapModel.Valid, SiftsUp;
    SlotKnown(s, 5);
    FinalSiftsUp(s.key);
    SiftingBreaks(s, 12);
  }

  /** Node n is in the heap but does not know it: erasing it changes nothing. */
  ghost predicate Broken(s: Timers<int>, n: int) {
    && !TimersValid(s)
    && n in s.heap.slots && n in s.heap.index && s.heap.index[n] == -1
    && Keyed(s.heap.slots, s.key) && Erase(s.heap, s.key, n, AsWritten) == s.heap
  }

  lemma NothingRegistered()
    ensures InOrder(Timers(Heap([], map[]), map[]), 0)
  {}

  /** The defect in action. From the empty heap, fifteen timers are registered with growing deadlines and
      four of them unregistered, by legal and sound calls only. One more unregistration, as legal as
      the others, leaves a heap in which node 10 stays whatever is done to unregister it. */
  lemma SiftUpBranchReachable() returns (cs: seq<Call<int>>, s: Timers<int>)
    ensures LegalRun(Timers(Heap([], map[]), map[]), cs, AsWritten)
    ensures var ss := States(Timers(Heap([], map[]), map[]), cs, AsWritten); ss != [] && s == ss[|ss| - 1]
    ensures TimersValid(s) && Legal(s, Unregister(12)) && !Sound(s, Unregister(12), AsWritten)
    ensures Broken(Do(s, Unregister(12), AsWritten), 10)
  {
    hide InOrder, Looks, Broken, Legal, Sound, Do, States, LegalRun, HeapModel.Valid;
    var start: Timers<int> := Timers(Heap([], map[]), map[]);
    NothingRegistered();
    cs := FromRegistered(start, 0);
    var ss := States(start, cs, AsWritten);
    s := ss[|ss| - 1];
    LastErase(s);
  }

  /** When the clock steps back: of two timers at 10 and 20 seconds the later one is registered anew for 5 seconds. As
      intended or as written, the other one is gone from the heap. */
  lemma BackwardsLosesNode(rev: Revision)
    ensures var s: Timers<int> := Timers(Heap([0, 1], map[0 := 0, 1 := 1]), map[0 := Timeval(10, 0), 1 := Timeval(20, 0)]);
      var c := Register(1, Timeval(5, 0));
      && TimersValid(s) && Legal(s, c) && !Sound(s, c, rev)
      && 0 !in Do(s, c, rev).heap.slots && s.heap.slots[0] == 0
  {
    var s: Timers<int> := Timers(Heap([0, 1], map[0 := 0, 1 := 1]), map[0 := Timeval(10, 0), 1 := Timeval(20, 0)]);
    var key := s.key[1 := Timeval(5, 0)];
    assert Parent(1) == 0;
    assert TimersValid(s);
    var e := Erase(s.heap, key, 1, rev);
    assert ShiftUp(s.heap, key, 1, 1) == ShiftUp(MoveHole(s.heap, 1, 0), key, 0, 1);
    assert e.slots == [1];
    assert Push(e, key, 1).slots == [1, 1];
  }
}
