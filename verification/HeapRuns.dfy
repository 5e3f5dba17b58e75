// Whole runs of the timer heap: it refines a map of pending deadlines, draining it sorts, its array
// grows at amortised constant cost, and the reset line of the source's erase breaks it in a run with
// non-decreasing deadlines.

module HeapRuns {
  import opened Doubling
  import opened TimeMath
  import opened HeapModel
  import opened HeapProofs

  datatype Timers<N> = Timers(heap: Heap<N>, key: map<N, Timeval>)

  /** The calls that reach the heap: MinheapTimeoutEventInit of a node outside the heap,
      RegisterTimerOutEvent (with the new deadline), UnregisterTimerOutEvent and MinheapPop. */
  datatype Call<N> = Init(node: N) | Register(node: N, deadline: Timeval) | Unregister(node: N) | PopTop

  ghost predicate TimersValid<N>(s: Timers<N>) {
    Valid(s.heap, s.key)
  }

  /** What the callers guarantee: initialised nodes, and none initialised again while it is in the heap. */
  ghost predicate Legal<N>(s: Timers<N>, c: Call<N>)
    requires TimersValid(s)
  {
    match c
    case Init(n) => n in s.key ==> s.heap.index[n] == -1
    case Register(n, t) => n in s.key
    case Unregister(n) => n in s.key
    case PopTop => true
  }

  /** The call does not run into the defective reset line of MinheapErase, nor does it move the deadline of the last
      node back before its parent's. */
  ghost predicate Sound<N>(s: Timers<N>, c: Call<N>, rev: Revision)
    requires TimersValid(s) && Legal(s, c)
  {
    match c
    case Register(n, t) => (OverwrittenKey(s.heap, s.key, n, t, rev); SoundErase(s.heap, s.key[n := t], n, rev))
    case Unregister(n) => SoundErase(s.heap, s.key, n, rev)
    case _ => true
  }

  /** RegisterTimerOutEvent once the deadline is computed: store the key, erase, push. */
  ghost function RegisterAt<N>(s: Timers<N>, n: N, t: Timeval, rev: Revision): Timers<N>
    requires TimersValid(s) && Legal(s, Register(n, t))
  {
    var key := s.key[n := t];
    OverwrittenKey(s.heap, s.key, n, t, rev);
    Timers(Push(Erase(s.heap, key, n, rev), key, n), key)
  }

  ghost function Do<N>(s: Timers<N>, c: Call<N>, rev: Revision): Timers<N>
    requires TimersValid(s) && Legal(s, c)
  {
    match c
    case Init(n) => Timers(Heap(s.heap.slots, s.heap.index[n := -1]), s.key[n := Timeval(0, 0)])
    case Register(n, t) => RegisterAt(s, n, t, rev)
    case Unregister(n) => Timers(Erase(s.heap, s.key, n, rev), s.key)
    case PopTop => if s.heap.slots == [] then s else Timers(Pop(s.heap, s.key), s.key)
  }

  // ---------------------------------------------------------------------------------------------
  // Refinement of a map of pending deadlines

  /** The abstract queue: the nodes waiting, with their deadlines. */
  ghost function Pending<N>(s: Timers<N>): map<N, Timeval>
    requires TimersValid(s)
  {
    map n | n in Members(s.heap) :: s.key[n]
  }

  ghost predicate Earliest<N>(m: map<N, Timeval>, n: N) {
    n in m && forall x :: x in m ==> !Greater(m[n], m[x])
  }

  /** What each call does to the abstract queue. */
  ghost predicate QueueStep<N>(m: map<N, Timeval>, c: Call<N>, m': map<N, Timeval>) {
    match c
    case Init(n) => m' == m
    case Register(n, t) => m' == m[n := t]
    case Unregister(n) => m' == m - {n}
    case PopTop => if m == map[] then m' == m else exists n :: n in m && Earliest(m, n) && m' == m - {n}
  }

  lemma InitKeepsValid<N>(s: Timers<N>, n: N, rev: Revision)
    requires TimersValid(s) && Legal(s, Init(n))
    ensures TimersValid(Do(s, Init(n), rev)) && Pending(Do(s, Init(n), rev)) == Pending(s)
  {
    var r := Do(s, Init(n), rev);
    assert n !in s.heap.slots;
    forall i | 0 <= i < |s.heap.slots| ensures r.key[s.heap.slots[i]] == s.key[s.heap.slots[i]] {}
    assert Ordered(r.heap.slots, r.key);
    assert Members(r.heap) == Members(s.heap);
  }

  lemma PopTopStep<N>(s: Timers<N>, rev: Revision)
    requires TimersValid(s)
    ensures TimersValid(Do(s, PopTop, rev))
    ensures QueueStep(Pending(s), PopTop, Pending(Do(s, PopTop, rev)))
  {
    if s.heap.slots != [] {
      PopCorrect(s.heap, s.key);
      var top, m := s.heap.slots[0], Pending(s);
      assert top in m && Earliest(m, top);
      assert Pending(Do(s, PopTop, rev)) == m - {top};
    } else {
      assert Pending(s) == map[];
    }
  }

  lemma RegisterStep<N>(s: Timers<N>, n: N, t: Timeval, rev: Revision)
    requires TimersValid(s) && Legal(s, Register(n, t)) && Sound(s, Register(n, t), rev)
    ensures TimersValid(RegisterAt(s, n, t, rev))
    ensures Pending(RegisterAt(s, n, t, rev)) == Pending(s)[n := t]
  {
    hide Push, Erase, Ordered;
    ReRegister(s.heap, s.key, n, t, rev);
  }

  lemma UnregisterStep<N>(s: Timers<N>, n: N, rev: Revision)
    requires TimersValid(s) && n in s.key && Sound(s, Unregister(n), rev)
    ensures TimersValid(Do(s, Unregister(n), rev))
    ensures Pending(Do(s, Unregister(n), rev)) == Pending(s) - {n}
  {
    hide Ordered, Erase, MayErase;
    if s.heap.index[n] != -1 {
      ValidMayErase(s.heap, s.key, n);
      EraseContents(s.heap, s.key, n, rev);
      EraseExact(s.heap, s.key, n, rev);
      MayEraseLast(s.heap, s.key, n);
    } else {
      EraseOutside(s.heap, s.key, n, rev);
      assert n !in s.heap.slots;
    }
  }

  /** A call leaves a valid heap exactly when it is sound. */
  lemma CallValidIff<N>(s: Timers<N>, c: Call<N>, rev: Revision)
    requires TimersValid(s) && Legal(s, c)
    ensures TimersValid(Do(s, c, rev)) <==> Sound(s, c, rev)
  {
    hide Push, Erase, Pop, Ordered, MayErase;
    match c
    case Init(n) => InitKeepsValid(s, n, rev);
    case Register(n, t) => ReRegister(s.heap, s.key, n, t, rev);
    case Unregister(n) =>
      if s.heap.index[n] != -1 {
        ValidMayErase(s.heap, s.key, n);
        EraseExact(s.heap, s.key, n, rev);
        MayEraseLast(s.heap, s.key, n);
      } else {
        EraseOutside(s.heap, s.key, n, rev);
      }
    case PopTop => PopTopStep(s, rev);
  }

  /** With the line as intended, every call is sound whose deadline does not move backwards. */
  lemma IntendedIsSound<N>(s: Timers<N>, c: Call<N>)
    requires TimersValid(s) && Legal(s, c)
    requires c.Register? && s.heap.index[c.node] != -1 ==> !Greater(s.key[c.node], c.deadline)
    ensures Sound(s, c, AsIntended)
  {
    hide Push, Erase, Pop, Ordered, MayErase;
    match c
    case Register(n, t) => ReRegister(s.heap, s.key, n, t, AsIntended);
    case Unregister(n) =>
      if s.heap.index[n] != -1 {
        ValidMayErase(s.heap, s.key, n);
        MayEraseLast(s.heap, s.key, n);
        assert 0 <= s.heap.index[n] < |s.heap.slots|;
      }
    case _ =>
  }

  /** Every legal call that avoids the defective line keeps the heap valid and acts on the pending
      deadlines as the abstract queue does. */
  lemma CallRefinesQueue<N>(s: Timers<N>, c: Call<N>, rev: Revision)
    requires TimersValid(s) && Legal(s, c) && Sound(s, c, rev)
    ensures TimersValid(Do(s, c, rev))
    ensures QueueStep(Pending(s), c, Pending(Do(s, c, rev)))
  {
    match c
    case Init(n) => InitKeepsValid(s, n, rev);
    case Register(n, t) => RegisterStep(s, n, t, rev);
    case Unregister(n) => UnregisterStep(s, n, rev);
    case PopTop => PopTopStep(s, rev);
  }

  /** Every call of the run is legal and sound in the state that the calls before it leave. */
  ghost predicate LegalRun<N>(s: Timers<N>, cs: seq<Call<N>>, rev: Revision)
    requires TimersValid(s)
    decreases |cs|
  {
    cs == [] ||
    (Legal(s, cs[0]) && Sound(s, cs[0], rev) &&
     (CallRefinesQueue(s, cs[0], rev); LegalRun(Do(s, cs[0], rev), cs[1..], rev)))
  }

  /** Every call of the run is legal and leaves a valid heap. */
  ghost predicate ValidRun<N>(s: Timers<N>, cs: seq<Call<N>>, rev: Revision)
    requires TimersValid(s)
    decreases |cs|
  {
    cs == [] ||
    (Legal(s, cs[0]) && TimersValid(Do(s, cs[0], rev)) && ValidRun(Do(s, cs[0], rev), cs[1..], rev))
  }

  /** All states of a run are valid exactly when each of its calls is sound where it is made. */
  lemma {:induction false} RunValidIff<N>(s: Timers<N>, cs: seq<Call<N>>, rev: Revision)
    requires TimersValid(s)
    ensures ValidRun(s, cs, rev) <==> LegalRun(s, cs, rev)
    decreases |cs|
  {
    hide TimersValid, Legal, Sound, Do;
    if cs != [] && Legal(s, cs[0]) {
      CallValidIff(s, cs[0], rev);
      if Sound(s, cs[0], rev) {
        RunValidIff(Do(s, cs[0], rev), cs[1..], rev);
      }
    }
  }

  /** The states a run passes through. */
  ghost function States<N>(s: Timers<N>, cs: seq<Call<N>>, rev: Revision): (ss: seq<Timers<N>>)
    requires TimersValid(s) && LegalRun(s, cs, rev)
    ensures ss != []
    decreases |cs|
  {
    if cs == [] then [s]
    else
      CallRefinesQueue(s, cs[0], rev);
      [s] + States(Do(s, cs[0], rev), cs[1..], rev)
  }

  /** Any interleaving of calls, of any length: the heap is valid in every state, and the run of the
      heap is a run of the abstract queue. */
  lemma {:induction false} RunRefinesQueue<N>(s: Timers<N>, cs: seq<Call<N>>, rev: Revision)
    requires TimersValid(s) && LegalRun(s, cs, rev)
    ensures var ss := States(s, cs, rev);
      && |ss| == |cs| + 1
      && (forall k :: 0 <= k < |ss| ==> TimersValid(ss[k]))
      && (forall k :: 0 <= k < |cs| ==> QueueStep(Pending(ss[k]), cs[k], Pending(ss[k + 1])))
    decreases |cs|
  {
    if cs != [] {
      CallRefinesQueue(s, cs[0], rev);
      var s' := Do(s, cs[0], rev);
      RunRefinesQueue(s', cs[1..], rev);
      var ss, tail := States(s, cs, rev), States(s', cs[1..], rev);
      forall k | 0 <= k < |cs| ensures QueueStep(Pending(ss[k]), cs[k], Pending(ss[k + 1])) {
        if k > 0 {
          assert ss[k] == tail[k - 1] && ss[k + 1] == tail[k] && cs[k] == cs[1..][k - 1];
        }
      }
    }
  }

  /** `free(pstTimeoutEvent)` */
  ghost function FreeNode<N>(s: Timers<N>, n: N): Timers<N> {
    Timers(Heap(s.heap.slots, s.heap.index - {n}), s.key - {n})
  }

  lemma FreeNodeValid<N>(s: Timers<N>, n: N)
    requires TimersValid(s) && n in s.key && s.heap.index[n] == -1
    ensures TimersValid(FreeNode(s, n))
  {
    var r := FreeNode(s, n);
    forall i | 0 <= i < |s.heap.slots| ensures s.heap.slots[i] != n {}
    assert Ordered(r.heap.slots, r.key);
  }

  // ---------------------------------------------------------------------------------------------
  // Draining

  /** Pop until the heap is empty. */
  ghost function Drain<N>(h: Heap<N>, key: map<N, Timeval>): seq<N>
    requires Valid(h, key)
    decreases |h.slots|
  {
    if h.slots == [] then []
    else
      PopCorrect(h, key);
      [h.slots[0]] + Drain(Pop(h, key), key)
  }

  ghost predicate Sorted<N>(s: seq<N>, key: map<N, Timeval>) {
    && Keyed(s, key)
    && forall i, j :: 0 <= i < j < |s| ==> !Greater(key[s[i]], key[s[j]])
  }

  /** Draining a heap yields its nodes, each as often as it holds them, in deadline order. */
  lemma {:induction false} DrainSorts<N>(h: Heap<N>, key: map<N, Timeval>)
    requires Valid(h, key)
    ensures multiset(Drain(h, key)) == multiset(h.slots) && Sorted(Drain(h, key), key)
    decreases |h.slots|
  {
    if h.slots != [] {
      PopCorrect(h, key);
      var top, rest := h.slots[0], Drain(Pop(h, key), key);
      DrainSorts(Pop(h, key), key);
      assert top in multiset(h.slots);
      assert multiset(Drain(h, key)) == multiset{top} + multiset(rest);
      forall j | 0 <= j < |rest| ensures !Greater(key[top], key[rest[j]]) {
        assert rest[j] in multiset(rest);
        assert rest[j] in multiset(h.slots);
      }
      SortedCons(top, rest, key);
    }
  }

  lemma SortedCons<N>(x: N, s: seq<N>, key: map<N, Timeval>)
    requires Sorted(s, key) && x in key && forall j :: 0 <= j < |s| ==> !Greater(key[x], key[s[j]])
    ensures Sorted([x] + s, key)
  {}

  // ---------------------------------------------------------------------------------------------
  // Growth of the slot array

  const MINHEAP_INIT_SIZE := 16

  /** `MinheapReserveSize`: the new capacity when room for `need` slots is asked for. */
  function Reserved(capacity: nat, need: nat): nat {
    if need <= capacity then capacity
    else
      var doubled := if capacity != 0 then capacity * 2 else MINHEAP_INIT_SIZE;
      if doubled < need then need else doubled
  }

  /** Slots in use, capacity, most slots ever in use, and slots copied by reallocations so far. */
  datatype Growth = Growth(used: nat, capacity: nat, peak: nat, copied: nat)

  function GrowthStep(g: Growth, push: bool): Growth {
    if push then
      var capacity := Reserved(g.capacity, g.used + 1);
      Growth(g.used + 1, capacity, if g.peak < g.used + 1 then g.used + 1 else g.peak,
             g.copied + if capacity == g.capacity then 0 else g.capacity)
    else
      g.(used := if g.used == 0 then 0 else g.used - 1)
  }

  function GrowthRun(pushes: seq<bool>): (g: Growth)
    decreases |pushes|
  {
    if pushes == [] then Growth(0, 0, 0, 0)
    else GrowthStep(GrowthRun(pushes[..|pushes| - 1]), pushes[|pushes| - 1])
  }

  /** Over any run of pushes and removals the capacity is 0 or 16 * 2^k, it suffices, and all
      reallocations together copy fewer slots than twice the largest number of nodes ever held. */
  lemma {:induction false} AmortisedGrowth(pushes: seq<bool>)
    ensures var g := GrowthRun(pushes);
      && g.used <= g.peak <= g.capacity
      && (g.capacity == 0 || exists k: nat :: g.capacity == 16 * PowerOf2(k))
      && (g.peak == 0 ==> g.copied == 0)
      && (g.peak > 0 ==> g.copied < 2 * g.peak && g.copied == g.capacity - 16)
      && (g.capacity > 16 ==> g.capacity < 2 * g.peak)
    decreases |pushes|
  {
    if pushes != [] {
      var g := GrowthRun(pushes[..|pushes| - 1]);
      AmortisedGrowth(pushes[..|pushes| - 1]);
      if g.capacity == 0 {
        assert MINHEAP_INIT_SIZE == MINHEAP_INIT_SIZE * PowerOf2(0);
      } else {
        var k: nat :| g.capacity == MINHEAP_INIT_SIZE * PowerOf2(k);
        assert 2 * g.capacity == MINHEAP_INIT_SIZE * PowerOf2(k + 1);
      }
    }
  }

  /** The pushes (true) and the removals that one call makes, in order; re-registering a node does both. */
  ghost function Resizes<N>(s: Timers<N>, c: Call<N>): seq<bool>
    requires TimersValid(s) && Legal(s, c)
  {
    match c
    case Init(_) => []
    case Register(n, _) => if s.heap.index[n] == -1 then [true] else [false, true]
    case Unregister(n) => if s.heap.index[n] == -1 then [] else [false]
    case PopTop => if s.heap.slots == [] then [] else [false]
  }

  ghost function AllResizes<N>(s: Timers<N>, cs: seq<Call<N>>, rev: Revision): seq<bool>
    requires TimersValid(s) && LegalRun(s, cs, rev)
    decreases |cs|
  {
    if cs == [] then []
    else
      CallRefinesQueue(s, cs[0], rev);
      Resizes(s, cs[0]) + AllResizes(Do(s, cs[0], rev), cs[1..], rev)
  }

  /** The slots in use after a run, and what the array has been through meanwhile. */
  ghost predicate GrownTo<N>(pushes: seq<bool>, s: Timers<N>) {
    GrowthRun(pushes).used == |s.heap.slots|
  }

  lemma GrowthSnoc(pushes: seq<bool>, push: bool)
    ensures GrowthRun(pushes + [push]) == GrowthStep(GrowthRun(pushes), push)
  {
    assert (pushes + [push])[..|pushes|] == pushes;
  }

  lemma RegisterSize<N>(s: Timers<N>, n: N, t: Timeval, rev: Revision)
    requires TimersValid(s) && Legal(s, Register(n, t)) && Sound(s, Register(n, t), rev)
    ensures |RegisterAt(s, n, t, rev).heap.slots| == |s.heap.slots| + if s.heap.index[n] == -1 then 1 else 0
    ensures s.heap.index[n] == -1 || |s.heap.slots| > 0
  {
    hide Push, Erase, Ordered;
    ReRegister(s.heap, s.key, n, t, rev);
    SameSize(RegisterAt(s, n, t, rev).heap.slots, if s.heap.index[n] == -1 then s.heap.slots + [n] else s.heap.slots);
  }

  lemma UnregisterSize<N>(s: Timers<N>, n: N, rev: Revision)
    requires TimersValid(s) && n in s.key
    ensures |Do(s, Unregister(n), rev).heap.slots| == |s.heap.slots| - if s.heap.index[n] == -1 then 0 else 1
  {
    hide Push, Pop, Ordered;
    if s.heap.index[n] != -1 {
      ValidMayErase(s.heap, s.key, n);
      EraseContents(s.heap, s.key, n, rev);
    }
  }

  lemma PopSize<N>(s: Timers<N>, rev: Revision)
    requires TimersValid(s)
    ensures |Do(s, PopTop, rev).heap.slots| == if s.heap.slots == [] then 0 else |s.heap.slots| - 1
  {
    hide Push, Pop, Ordered;
    if s.heap.slots != [] {
      PopCorrect(s.heap, s.key);
    }
  }

  lemma CallGrows<N>(pushes: seq<bool>, s: Timers<N>, c: Call<N>, rev: Revision)
    requires TimersValid(s) && Legal(s, c) && Sound(s, c, rev) && GrownTo(pushes, s)
    ensures GrownTo(pushes + Resizes(s, c), Do(s, c, rev))
  {
    hide Push, Erase, Pop, Ordered, RegisterAt, Sound;
    assert pushes + [] == pushes;
    match c
    case Init(n) =>
    case Register(n, t) =>
      RegisterSize(s, n, t, rev);
      GrowthSnoc(pushes, true);
      GrowthSnoc(pushes, false);
      GrowthSnoc(pushes + [false], true);
      assert pushes + [false, true] == (pushes + [false]) + [true];
    case Unregister(n) =>
      GrowthSnoc(pushes, false);
      UnregisterSize(s, n, rev);
    case PopTop =>
      GrowthSnoc(pushes, false);
      PopSize(s, rev);
  }

  lemma SameSize<T>(s: seq<T>, t: seq<T>)
    requires multiset(s) == multiset(t)
    ensures |s| == |t|
  {
    assert |multiset(s)| == |s| && |multiset(t)| == |t|;
  }

  lemma {:induction false} RunGrows<N>(pushes: seq<bool>, s: Timers<N>, cs: seq<Call<N>>, rev: Revision)
    requires TimersValid(s) && LegalRun(s, cs, rev) && GrownTo(pushes, s)
    ensures var ss := States(s, cs, rev); GrownTo(pushes + AllResizes(s, cs, rev), ss[|ss| - 1])
    decreases |cs|
  {
    hide TimersValid, Legal, Sound, Do, Resizes, GrownTo, QueueStep, Pending;
    if cs == [] {
      assert pushes + [] == pushes;
    } else {
      CallRefinesQueue(s, cs[0], rev);
      CallGrows(pushes, s, cs[0], rev);
      var s1, p := Do(s, cs[0], rev), Resizes(s, cs[0]);
      RunGrows(pushes + p, s1, cs[1..], rev);
      assert pushes + (p + AllResizes(s1, cs[1..], rev)) == (pushes + p) + AllResizes(s1, cs[1..], rev);
      assert States(s, cs, rev) == [s] + States(s1, cs[1..], rev);
    }
  }

  /** The array of a heap that has been through a legal run from the start: it holds all nodes, and all its
      reallocations have copied fewer slots than twice the largest number of nodes that it ever held. */
  lemma RunCopiesLittle<N>(cs: seq<Call<N>>, rev: Revision)
    requires TimersValid<N>(Timers(Heap([], map[]), map[])) && LegalRun(Timers(Heap([], map[]), map[]), cs, rev)
    ensures var start: Timers<N> := Timers(Heap([], map[]), map[]);
      var g, ss := GrowthRun(AllResizes(start, cs, rev)), States(start, cs, rev);
      && |ss[|ss| - 1].heap.slots| == g.used <= g.peak <= g.capacity
      && (g.peak > 0 ==> g.copied < 2 * g.peak && g.capacity <= 16 + g.copied)
  {
    var start: Timers<N> := Timers(Heap([], map[]), map[]);
    assert [] + AllResizes(start, cs, rev) == AllResizes(start, cs, rev);
    RunGrows([], start, cs, rev);
    AmortisedGrowth(AllResizes(start, cs, rev));
  }
}
