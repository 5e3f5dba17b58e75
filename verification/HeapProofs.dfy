// What the heap operations of HeapModel mean: order, index bijection and conservation of nodes.

module HeapProofs {
  import opened TimeMath
  import opened HeapModel

  // ---------------------------------------------------------------------------------------------
  // Order

  /** Ordered everywhere except at slot `hole`, across which the order still holds. */
  ghost predicate OrderedBut<N>(s: seq<N>, key: map<N, Timeval>, hole: nat)
    requires Keyed(s, key)
  {
    && (forall c {:trigger Parent(c)} :: 0 < c < |s| && c != hole && Parent(c) != hole ==> !Greater(key[s[Parent(c)]], key[s[c]]))
    && (0 < hole < |s| ==>
          forall c {:trigger Parent(c)} :: hole < c < |s| && Parent(c) == hole ==> !Greater(key[s[Parent(hole)]], key[s[c]]))
  }

  ghost predicate NotAboveParent<N>(s: seq<N>, key: map<N, Timeval>, hole: nat, e: N)
    requires hole < |s| && Keyed(s, key) && e in key
  {
    hole > 0 ==> !Greater(key[s[Parent(hole)]], key[e])
  }

  ghost predicate NotBelowChildren<N>(s: seq<N>, key: map<N, Timeval>, hole: nat, e: N)
    requires hole < |s| && Keyed(s, key) && e in key
  {
    forall c {:trigger Parent(c)} :: hole < c < |s| && Parent(c) == hole ==> !Greater(key[e], key[s[c]])
  }

  lemma {:induction false} ShiftUpOrders<N>(h: Heap<N>, key: map<N, Timeval>, hole: nat, e: N)
    requires hole < |h.slots| && Keyed(h.slots, key) && e in key
    requires OrderedBut(h.slots, key, hole) && NotBelowChildren(h.slots, key, hole, e)
    ensures var r := ShiftUp(h, key, hole, e).slots; Keyed(r, key) && Ordered(r, key)
    decreases hole
  {
    var p := Parent(hole);
    if hole != 0 && Greater(key[h.slots[p]], key[e]) {
      var s' := h.slots[hole := h.slots[p]];
      ShiftUpOrders(Heap(s', h.index[h.slots[p] := hole]), key, p, e);
    }
  }

  /** The smaller child is no later than either child. */
  lemma MinChildIsMin<N>(s: seq<N>, key: map<N, Timeval>, hole: nat)
    requires 2 * (hole + 1) <= |s| && Keyed(s, key)
    ensures var c := MinChild(s, key, hole);
      && hole < c < |s| && Parent(c) == hole
      && forall j :: hole < j < |s| && Parent(j) == hole ==> !Greater(key[s[c]], key[s[j]])
  {}

  /** One step of the sift-down keeps what the sift-down needs. */
  lemma ShiftDownStep<N>(s: seq<N>, key: map<N, Timeval>, hole: nat, e: N)
    requires 2 * (hole + 1) <= |s| && Keyed(s, key) && e in key
    requires OrderedBut(s, key, hole) && NotAboveParent(s, key, hole, e)
    requires Greater(key[e], key[s[MinChild(s, key, hole)]])
    ensures var c := MinChild(s, key, hole);
      var s' := s[hole := s[c]];
      Keyed(s', key) && OrderedBut(s', key, c) && NotAboveParent(s', key, c, e)
  {
    var c := MinChild(s, key, hole);
    var s' := s[hole := s[c]];
    MinChildIsMin(s, key, hole);
    forall j | 0 < j < |s'| && j != c && Parent(j) != c
      ensures !Greater(key[s'[Parent(j)]], key[s'[j]])
    {
      if j == hole {} else if Parent(j) == hole {} else {}
    }
  }

  lemma {:induction false} ShiftDownOrders<N>(h: Heap<N>, key: map<N, Timeval>, hole: nat, e: N)
    requires hole < |h.slots| && Keyed(h.slots, key) && e in key
    requires OrderedBut(h.slots, key, hole) && NotAboveParent(h.slots, key, hole, e)
    ensures var r := ShiftDown(h, key, hole, e).slots; Keyed(r, key) && Ordered(r, key)
    decreases |h.slots| - hole
  {
    if 2 * (hole + 1) <= |h.slots| {
      var c := MinChild(h.slots, key, hole);
      if Greater(key[e], key[h.slots[c]]) {
        ShiftDownStep(h.slots, key, hole, e);
        ShiftDownOrders(Heap(h.slots[hole := h.slots[c]], h.index[h.slots[c] := hole]), key, c, e);
      } else {
        MinChildIsMin(h.slots, key, hole);
        PlaceOrders(h.slots, key, hole, e);
      }
    } else {
      PlaceOrders(h.slots, key, hole, e);
    }
  }

  /** Filling the hole with a node that fits both ways completes the order. */
  lemma PlaceOrders<N>(s: seq<N>, key: map<N, Timeval>, hole: nat, e: N)
    requires hole < |s| && Keyed(s, key) && e in key
    requires OrderedBut(s, key, hole) && NotAboveParent(s, key, hole, e) && NotBelowChildren(s, key, hole, e)
    ensures Keyed(s[hole := e], key) && Ordered(s[hole := e], key)
  {}

  // ---------------------------------------------------------------------------------------------
  // Index and conservation

  /** Every node outside the hole knows its slot; `e` occurs at most in the hole and in the last slot,
      where the source leaves it while it is being placed. */
  ghost predicate HoleIndexed<N>(h: Heap<N>, hole: nat, e: N) {
    && hole < |h.slots|
    && (forall j :: 0 <= j < |h.slots| && j != hole ==> h.slots[j] in h.index && h.index[h.slots[j]] == j)
    && (forall j :: 0 <= j < |h.slots| - 1 && j != hole ==> h.slots[j] != e)
  }

  /** What placing `e` in the hole of `h` has to achieve: `kept` is what the slots hold afterwards, every
      slot is known to its node, and no other index changes. With `stale`, the last slot still holds
      `e`, whose own index points to its new place. */
  ghost predicate Placed<N>(index: map<N, int>, n: nat, kept: multiset<N>, stale: bool, e: N, r: Heap<N>) {
    && |r.slots| == n
    && multiset(r.slots) == kept
    && r.index.Keys == index.Keys + {e}
    && 0 <= r.index[e] < n && r.slots[r.index[e]] == e
    && (forall j :: 0 <= j < (if stale then n - 1 else n) ==> r.slots[j] in r.index && r.index[r.slots[j]] == j)
    && (forall x :: x in index && x !in kept ==> r.index[x] == index[x])
    && (stale ==> r.slots[n - 1] == e && r.index[e] < n - 1)
  }

  ghost predicate HoleFilled<N>(h: Heap<N>, hole: nat, e: N, r: Heap<N>)
    requires hole < |h.slots|
  {
    Placed(h.index, |h.slots|, multiset(h.slots[hole := e]), Stale(h.slots, hole, e), e, r)
  }

  ghost predicate Stale<N>(s: seq<N>, hole: nat, e: N) {
    hole < |s| - 1 && s[|s| - 1] == e
  }

  /** Moving the node at slot `c` into the hole, as both sift loops do. */
  ghost function MoveHole<N>(h: Heap<N>, hole: nat, c: nat): Heap<N>
    requires hole < |h.slots| && c < |h.slots|
  {
    Heap(h.slots[hole := h.slots[c]], h.index[h.slots[c] := hole])
  }

  lemma ShiftUpOnce<N>(h: Heap<N>, key: map<N, Timeval>, hole: nat, e: N)
    requires 0 < hole < |h.slots| && KeyedBut(h.slots, key, hole) && e in key
    requires Greater(key[h.slots[Parent(hole)]], key[e])
    ensures ShiftUp(h, key, hole, e) == ShiftUp(MoveHole(h, hole, Parent(hole)), key, Parent(hole), e)
  {}

  lemma ShiftUpStops<N>(h: Heap<N>, key: map<N, Timeval>, hole: nat, e: N)
    requires hole < |h.slots| && KeyedBut(h.slots, key, hole) && e in key
    requires hole == 0 || !Greater(key[h.slots[Parent(hole)]], key[e])
    ensures ShiftUp(h, key, hole, e) == Heap(h.slots[hole := e], h.index[e := hole])
  {}

  lemma ShiftDownOnce<N>(h: Heap<N>, key: map<N, Timeval>, hole: nat, e: N)
    requires 2 * (hole + 1) <= |h.slots| && Keyed(h.slots, key) && e in key
    requires Greater(key[e], key[h.slots[MinChild(h.slots, key, hole)]])
    ensures var c := MinChild(h.slots, key, hole);
      ShiftDown(h, key, hole, e) == ShiftDown(MoveHole(h, hole, c), key, c, e)
  {}

  lemma ShiftDownStops<N>(h: Heap<N>, key: map<N, Timeval>, hole: nat, e: N)
    requires hole < |h.slots| && Keyed(h.slots, key) && e in key
    requires 2 * (hole + 1) <= |h.slots| ==> !Greater(key[e], key[h.slots[MinChild(h.slots, key, hole)]])
    ensures ShiftDown(h, key, hole, e) == Heap(h.slots[hole := e], h.index[e := hole])
  {}

  lemma MoveKeeps<N>(s: seq<N>, hole: nat, c: nat, e: N)
    requires hole < |s| && c < |s| && c != hole
    ensures multiset(s[hole := s[c]][c := e]) == multiset(s[hole := e]) && s[c] in multiset(s[hole := e])
  {
    assert s[hole := e][c] == s[c];
    assert s[hole := s[c]][c := e] == s[hole := e][c := e][hole := s[c]];
  }

  lemma MoveHoleStep<N>(h: Heap<N>, hole: nat, c: nat, e: N)
    requires HoleIndexed(h, hole, e) && c < |h.slots| && c != hole && h.slots[c] != e
    ensures var m := MoveHole(h, hole, c);
      && HoleIndexed(m, c, e)
      && multiset(m.slots[c := e]) == multiset(h.slots[hole := e])
      && m.index.Keys == h.index.Keys
      && (Stale(h.slots, hole, e) <==> Stale(m.slots, c, e))
      && h.slots[c] in multiset(h.slots[hole := e])
  {
    MoveKeeps(h.slots, hole, c, e);
  }

  lemma PlaceHere<N>(h: Heap<N>, hole: nat, e: N)
    requires HoleIndexed(h, hole, e)
    ensures HoleFilled(h, hole, e, Heap(h.slots[hole := e], h.index[e := hole]))
  {
    assert h.slots[hole := e][hole] == e;
  }

  /** What filling the moved hole achieves is what filling the original one has to. */
  lemma FilledAfterMove<N>(h: Heap<N>, hole: nat, c: nat, e: N, r: Heap<N>)
    requires HoleIndexed(h, hole, e) && c < |h.slots| && c != hole && h.slots[c] != e
    requires HoleFilled(MoveHole(h, hole, c), c, e, r)
    ensures HoleFilled(h, hole, e, r)
  {
    hide Placed, Stale;
    MoveHoleStep(h, hole, c, e);
    PlacedFrom(h.index, MoveHole(h, hole, c).index, |h.slots|, multiset(h.slots[hole := e]), Stale(h.slots, hole, e), e, r);
  }

  /** The indices of the nodes that are kept do not matter. */
  lemma PlacedFrom<N>(index: map<N, int>, index': map<N, int>, n: nat, kept: multiset<N>, stale: bool, e: N, r: Heap<N>)
    requires Placed(index', n, kept, stale, e, r) && index'.Keys == index.Keys
    requires forall x :: x in index && x !in kept ==> index'[x] == index[x]
    ensures Placed(index, n, kept, stale, e, r)
  {}

  lemma {:induction false} ShiftUpPlaces<N>(h: Heap<N>, key: map<N, Timeval>, hole: nat, e: N)
    requires hole < |h.slots| && Keyed(h.slots, key) && e in key && HoleIndexed(h, hole, e)
    ensures HoleFilled(h, hole, e, ShiftUp(h, key, hole, e))
    decreases hole
  {
    hide HoleIndexed, HoleFilled, Stale;
    var p := Parent(hole);
    if hole != 0 && Greater(key[h.slots[p]], key[e]) {
      MoveHoleStep(h, hole, p, e);
      ShiftUpPlaces(MoveHole(h, hole, p), key, p, e);
      FilledAfterMove(h, hole, p, e, ShiftUp(h, key, hole, e));
    } else {
      PlaceHere(h, hole, e);
    }
  }

  lemma {:induction false} ShiftDownPlaces<N>(h: Heap<N>, key: map<N, Timeval>, hole: nat, e: N)
    requires hole < |h.slots| && Keyed(h.slots, key) && e in key && HoleIndexed(h, hole, e)
    ensures HoleFilled(h, hole, e, ShiftDown(h, key, hole, e))
    decreases |h.slots| - hole
  {
    hide HoleIndexed, HoleFilled, Stale;
    if 2 * (hole + 1) <= |h.slots| {
      var c := MinChild(h.slots, key, hole);
      if Greater(key[e], key[h.slots[c]]) {
        MoveHoleStep(h, hole, c, e);
        ShiftDownPlaces(MoveHole(h, hole, c), key, c, e);
        FilledAfterMove(h, hole, c, e, ShiftDown(h, key, hole, e));
      } else {
        PlaceHere(h, hole, e);
      }
    } else {
      PlaceHere(h, hole, e);
    }
  }

  // ---------------------------------------------------------------------------------------------
  // The operations

  lemma PushOrders<N>(h: Heap<N>, key: map<N, Timeval>, e: N)
    requires Keyed(h.slots, key) && Ordered(h.slots, key) && e in key
    ensures Keyed(Push(h, key, e).slots, key) && Ordered(Push(h, key, e).slots, key)
  {
    hide ShiftUp, Ordered, OrderedBut, NotBelowChildren;
    AppendedHole(h.slots, key, e);
    ShiftUpOrders(Heap(h.slots + [e], h.index), key, |h.slots|, e);
  }

  lemma PushIndexes<N>(h: Heap<N>, key: map<N, Timeval>, e: N)
    requires Indexed(h, key) && e in key && h.index[e] == -1
    ensures Indexed(Push(h, key, e), key) && multiset(Push(h, key, e).slots) == multiset(h.slots + [e])
  {
    hide ShiftUp, Placed;
    var n, h1, r := |h.slots|, Heap(h.slots + [e], h.index), Push(h, key, e);
    assert h1.slots[n := e] == h1.slots;
    ShiftUpPlaces(h1, key, n, e);
    IndexedFromPlaced(r, key, h1.slots, e, h.index);
    PlacedContents(h1.index, n + 1, multiset(h1.slots), false, e, r);
  }

  lemma PlacedContents<N>(index: map<N, int>, n: nat, kept: multiset<N>, stale: bool, e: N, r: Heap<N>)
    requires Placed(index, n, kept, stale, e, r)
    ensures multiset(r.slots) == kept
  {}

  /** Pushing a node that is not in the heap keeps everything valid and adds just that node. */
  lemma PushCorrect<N>(h: Heap<N>, key: map<N, Timeval>, e: N)
    requires Valid(h, key) && e in key && h.index[e] == -1
    ensures var r := Push(h, key, e);
      && Valid(r, key)
      && multiset(r.slots) == multiset(h.slots) + multiset{e}
      && Members(r) == Members(h) + {e}
  {
    hide Push, Ordered;
    PushOrders(h, key, e);
    PushIndexes(h, key, e);
    SameMembers(Push(h, key, e).slots, h.slots + [e]);
  }

  lemma AppendedHole<N>(s: seq<N>, key: map<N, Timeval>, e: N)
    requires Keyed(s, key) && Ordered(s, key) && e in key
    ensures Keyed(s + [e], key) && OrderedBut(s + [e], key, |s|) && NotBelowChildren(s + [e], key, |s|, e)
  {
    var t := s + [e];
    forall c | 0 < c < |s| ensures !Greater(key[t[Parent(c)]], key[t[c]]) {
      assert t[c] == s[c] && t[Parent(c)] == s[Parent(c)];
    }
  }

  lemma SameMembers<N>(s: seq<N>, t: seq<N>)
    requires multiset(s) == multiset(t)
    ensures forall x :: x in s <==> x in t
  {
    forall x ensures x in s <==> x in t {
      assert x in s <==> x in multiset(s);
      assert x in t <==> x in multiset(t);
    }
  }

  lemma IndexedFromPlaced<N>(r: Heap<N>, key: map<N, Timeval>, s: seq<N>, e: N, index: map<N, int>)
    requires Placed(index, |s|, multiset(s), false, e, r) && e in index && index.Keys == key.Keys
    requires forall x :: x in index ==> x in s || index[x] == -1
    ensures Indexed(r, key)
  {
    SameMembers(r.slots, s);
    forall x | x in r.index
      ensures r.index[x] == -1 || (0 <= r.index[x] < |r.slots| && r.slots[r.index[x]] == x)
    {
      if x in s {
        var i :| 0 <= i < |r.slots| && r.slots[i] == x;
      } else {
        assert x !in multiset(s);
      }
    }
  }

  /** Node `d` is in the heap and everything but its own key is in order; when `d` is the last node,
      its key is no earlier than its parent's. This holds in every valid heap, and still holds after
      the key of `d` has been raised in place, as RegisterTimerOutEvent does before it erases `d`. */
  ghost predicate MayErase<N>(h: Heap<N>, key: map<N, Timeval>, d: N) {
    && Indexed(h, key) && d in h.index && h.index[d] != -1
    && OrderedBut(h.slots, key, h.index[d])
    && (h.index[d] == |h.slots| - 1 ==> NotAboveParent(h.slots, key, h.index[d], d))
  }

  /** The key of a node in the heap is overwritten in place, by any time: the heap is still fit for erasing that node
      exactly when the node is not in the last slot or no earlier than its parent. A time that does not move
      backwards always meets that. */
  lemma OverwrittenMayErase<N>(h: Heap<N>, key: map<N, Timeval>, d: N, t: Timeval)
    requires Valid(h, key) && d in key && h.index[d] != -1
    ensures Indexed(h, key[d := t]) && OrderedBut(h.slots, key[d := t], h.index[d])
    ensures MayErase(h, key[d := t], d) <==> h.index[d] < |h.slots| - 1 || !SiftsUp(h.slots, key[d := t], h.index[d])
    ensures !Greater(key[d], t) ==> MayErase(h, key[d := t], d)
  {
    hide Indexed, Ordered, OrderedBut;
    OneKeyDiffers(h, key, d, t);
    OrderedElsewhere(h.slots, key, key[d := t], h.index[d]);
  }

  lemma OneKeyDiffers<N>(h: Heap<N>, key: map<N, Timeval>, d: N, t: Timeval)
    requires Indexed(h, key) && d in key && h.index[d] != -1
    ensures Indexed(h, key[d := t]) && 0 <= h.index[d] < |h.slots| && h.slots[h.index[d]] == d
    ensures Keyed(h.slots, key) && Keyed(h.slots, key[d := t])
    ensures forall c :: 0 <= c < |h.slots| && c != h.index[d] ==> key[d := t][h.slots[c]] == key[h.slots[c]]
  {}

  /** Where only the key at slot `i` differs, the order holds but there, and across it; with a later key it also holds
      towards the parent. */
  lemma OrderedElsewhere<N>(s: seq<N>, key: map<N, Timeval>, k: map<N, Timeval>, i: nat)
    requires i < |s| && Keyed(s, key) && Keyed(s, k) && Ordered(s, key)
    requires forall c :: 0 <= c < |s| && c != i ==> k[s[c]] == key[s[c]]
    ensures OrderedBut(s, k, i)
    ensures !Greater(key[s[i]], k[s[i]]) ==> NotAboveParent(s, k, i, s[i])
  {
    assert Parent(i) != i || i == 0;
    if 0 < i {
      assert !Greater(key[s[Parent(i)]], key[s[i]]);
      forall c | i < c < |s| && Parent(c) == i ensures !Greater(k[s[Parent(i)]], k[s[c]]) {
        assert !Greater(key[s[Parent(c)]], key[s[c]]);
      }
    }
  }

  /** The heap after the sift of an erase, before the count is lowered and an index is reset. */
  ghost function Sifted<N>(h: Heap<N>, key: map<N, Timeval>, i: nat): Heap<N>
    requires i < |h.slots| && Keyed(h.slots, key)
  {
    var last := h.slots[|h.slots| - 1];
    if SiftsUp(h.slots, key, i) then ShiftUp(h, key, i, last) else ShiftDown(h, key, i, last)
  }

  lemma EraseIsSift<N>(h: Heap<N>, key: map<N, Timeval>, d: N, rev: Revision)
    requires Keyed(h.slots, key) && Erasable(h, d) && h.index[d] != -1
    ensures var i, last := h.index[d], h.slots[|h.slots| - 1];
      var q := Sifted(h, key, i);
      Erase(h, key, d, rev) ==
      Heap(DropLast(q.slots), q.index[(if SiftsUp(h.slots, key, i) && rev.AsWritten? then last else d) := -1])
  {}

  lemma EraseOutside<N>(h: Heap<N>, key: map<N, Timeval>, d: N, rev: Revision)
    requires Keyed(h.slots, key) && d in h.index && h.index[d] == -1
    ensures Erase(h, key, d, rev) == h
  {}

  lemma SiftedOrdered<N>(h: Heap<N>, key: map<N, Timeval>, d: N)
    requires MayErase(h, key, d)
    ensures var s := Sifted(h, key, h.index[d]).slots; Keyed(s, key) && Ordered(s, key)
  {
    hide ShiftUp, ShiftDown, Ordered;
    var i := h.index[d];
    if SiftsUp(h.slots, key, i) {
      LastBelowChildren(h.slots, key, i);
      ShiftUpOrders(h, key, i, h.slots[|h.slots| - 1]);
    } else {
      assert NotAboveParent(h.slots, key, i, h.slots[|h.slots| - 1]);
      ShiftDownOrders(h, key, i, h.slots[|h.slots| - 1]);
    }
  }

  lemma LastBelowChildren<N>(s: seq<N>, key: map<N, Timeval>, i: nat)
    requires i < |s| && Keyed(s, key) && OrderedBut(s, key, i) && SiftsUp(s, key, i)
    ensures NotBelowChildren(s, key, i, s[|s| - 1])
  {}

  lemma SiftedFilled<N>(h: Heap<N>, key: map<N, Timeval>, d: N)
    requires Indexed(h, key) && d in h.index && h.index[d] != -1
    ensures HoleFilled(h, h.index[d], h.slots[|h.slots| - 1], Sifted(h, key, h.index[d]))
  {
    var i, last := h.index[d], h.slots[|h.slots| - 1];
    assert HoleIndexed(h, i, last);
    if SiftsUp(h.slots, key, i) {
      ShiftUpPlaces(h, key, i, last);
    } else {
      ShiftDownPlaces(h, key, i, last);
    }
  }

  /** Dropping the last slot, which holds the last node, leaves the old contents without the erased node. */
  lemma DropStale<N>(s: seq<N>, i: nat, t: seq<N>)
    requires i < |s| && multiset(t) == multiset(s[i := s[|s| - 1]])
    requires |t| == |s| && t[|s| - 1] == s[|s| - 1]
    ensures multiset(DropLast(t)) == multiset(s) - multiset{s[i]}
  {
    var last := s[|s| - 1];
    assert t == DropLast(t) + [last];
    assert multiset(t) == multiset(DropLast(t)) + multiset{last};
    assert s[i] in multiset(s);
    assert multiset(s[i := last]) == multiset(s) - multiset{s[i]} + multiset{last};
    forall x ensures multiset(DropLast(t))[x] == (multiset(s) - multiset{s[i]})[x] {
      assert multiset(t)[x] == multiset(DropLast(t))[x] + multiset{last}[x];
    }
  }

  lemma SingleOccurrence<N>(h: Heap<N>, key: map<N, Timeval>, i: nat)
    requires Indexed(h, key) && i < |h.slots|
    ensures multiset(h.slots)[h.slots[i]] == 1
  {
    var s, d := h.slots, h.slots[i];
    assert s == s[..i] + [d] + s[i + 1..];
    assert d !in s[..i] && d !in s[i + 1..];
  }

  lemma MembersWithout<N>(s: seq<N>, t: seq<N>, d: N)
    requires multiset(t) == multiset(s) - multiset{d} && multiset(s)[d] == 1
    ensures forall x :: x in t <==> x in s && x != d
  {
    forall x ensures x in t <==> x in s && x != d {
      assert x in t <==> x in multiset(t);
      assert x in s <==> x in multiset(s);
    }
  }

  lemma DroppedMembers<N>(s: seq<N>, i: nat, t: seq<N>)
    requires i < |s| && multiset(t) == multiset(s[i := s[|s| - 1]]) && multiset(s)[s[i]] == 1
    requires |t| == |s| && t[|s| - 1] == s[|s| - 1]
    ensures forall x :: x in DropLast(t) <==> x in s && x != s[i]
  {
    DropStale(s, i, t);
    MembersWithout(s, DropLast(t), s[i]);
  }

  lemma NoNewMember<N>(s: seq<N>, i: nat)
    requires i < |s|
    ensures forall x :: x !in s ==> x !in multiset(s[i := s[|s| - 1]])
  {}

  lemma PlacedParts<N>(index: map<N, int>, n: nat, kept: multiset<N>, stale: bool, e: N, r: Heap<N>)
    requires Placed(index, n, kept, stale, e, r)
    ensures |r.slots| == n && r.index.Keys == index.Keys + {e}
    ensures forall j :: 0 <= j < n - 1 ==> r.slots[j] in r.index && r.index[r.slots[j]] == j
    ensures forall x :: x in index && x !in kept ==> r.index[x] == index[x]
  {}

  /** What the slots and indices hold after the sift. */
  lemma SiftedParts<N>(h: Heap<N>, key: map<N, Timeval>, i: nat, q: Heap<N>)
    requires Indexed(h, key) && i < |h.slots| && HoleFilled(h, i, h.slots[|h.slots| - 1], q)
    requires q.slots[|h.slots| - 1] == h.slots[|h.slots| - 1]
    ensures q.index.Keys == key.Keys && |q.slots| == |h.slots|
    ensures forall j :: 0 <= j < |h.slots| - 1 ==> q.slots[j] in q.index && q.index[q.slots[j]] == j
    ensures forall x :: x in h.index && x !in h.slots ==> q.index[x] == -1
  {
    hide Placed;
    var last := h.slots[|h.slots| - 1];
    PlacedParts(h.index, |h.slots|, multiset(h.slots[i := last]), Stale(h.slots, i, last), last, q);
    NoNewMember(h.slots, i);
  }

  lemma SiftedMembers<N>(h: Heap<N>, key: map<N, Timeval>, i: nat, q: Heap<N>)
    requires Indexed(h, key) && i < |h.slots| && HoleFilled(h, i, h.slots[|h.slots| - 1], q)
    requires q.slots[|h.slots| - 1] == h.slots[|h.slots| - 1]
    ensures forall x :: x in DropLast(q.slots) <==> x in h.slots && x != h.slots[i]
  {
    hide Indexed, DropLast;
    SingleOccurrence(h, key, i);
    DroppedMembers(h.slots, i, q.slots);
  }

  /** The heap after the sift and the reset of the erased node's index is indexed. */
  lemma ResetIndexed<N>(h: Heap<N>, key: map<N, Timeval>, i: nat, q: Heap<N>)
    requires Indexed(h, key) && i < |h.slots| && HoleFilled(h, i, h.slots[|h.slots| - 1], q)
    requires q.slots[|h.slots| - 1] == h.slots[|h.slots| - 1]
    ensures Indexed(Heap(DropLast(q.slots), q.index[h.slots[i] := -1]), key)
  {
    hide HoleFilled;
    SiftedParts(h, key, i, q);
    SiftedMembers(h, key, i, q);
    var n, d := |h.slots|, h.slots[i];
    var r := Heap(DropLast(q.slots), q.index[d := -1]);
    forall j | 0 <= j < n - 1 ensures r.slots[j] in r.index && r.index[r.slots[j]] == j {
      assert r.slots[j] in r.slots;
    }
    forall x | x in r.index && x != d
      ensures r.index[x] == -1 || (0 <= r.index[x] < n - 1 && r.slots[r.index[x]] == x)
    {
      if x in h.slots {
        var j :| 0 <= j < n - 1 && r.slots[j] == x;
      }
    }
  }

  lemma LastSlotAfterSift<N>(h: Heap<N>, key: map<N, Timeval>, d: N)
    requires MayErase(h, key, d)
    ensures var q, n := Sifted(h, key, h.index[d]), |h.slots|;
      && |q.slots| == n && q.slots[n - 1] == h.slots[n - 1]
      && multiset(q.slots) == multiset(h.slots[h.index[d] := h.slots[n - 1]])
      && (SiftsUp(h.slots, key, h.index[d]) ==>
            && h.slots[n - 1] != d && h.slots[n - 1] in q.index
            && 0 <= q.index[h.slots[n - 1]] < n - 1 && q.slots[q.index[h.slots[n - 1]]] == h.slots[n - 1])
  {
    SiftedFilled(h, key, d);
  }

  lemma MayEraseFacts<N>(h: Heap<N>, key: map<N, Timeval>, d: N)
    requires MayErase(h, key, d)
    ensures Indexed(h, key) && d in key
    ensures Keyed(h.slots, key) && Erasable(h, d) && 0 <= h.index[d] < |h.slots| && h.slots[h.index[d]] == d
  {}

  /** Erasing a node at any slot, through either branch and including the last slot, takes exactly that
      node out and keeps the heap order. */
  lemma EraseContents<N>(h: Heap<N>, key: map<N, Timeval>, d: N, rev: Revision)
    requires MayErase(h, key, d)
    ensures var r := Erase(h, key, d, rev);
      && multiset(r.slots) == multiset(h.slots) - multiset{d}
      && Keyed(r.slots, key) && Ordered(r.slots, key)
      && Members(r) == Members(h) - {d} && |r.slots| == |h.slots| - 1
  {
    hide Erase, ShiftUp, ShiftDown, Sifted, Ordered, OrderedBut, NotAboveParent, Indexed;
    MayEraseFacts(h, key, d);
    var i := h.index[d];
    var q, r := Sifted(h, key, i), Erase(h, key, d, rev);
    EraseIsSift(h, key, d, rev);
    SiftedOrdered(h, key, d);
    LastSlotAfterSift(h, key, d);
    DropStale(h.slots, i, q.slots);
    SingleOccurrence(h, key, i);
    MembersWithout(h.slots, r.slots, d);
    OrderedPrefix(q.slots, key, |q.slots| - 1);
  }

  lemma OrderedPrefix<N>(s: seq<N>, key: map<N, Timeval>, m: nat)
    requires m <= |s| && Keyed(s, key) && Ordered(s, key)
    ensures Keyed(s[..m], key) && Ordered(s[..m], key)
  {}

  /** The index bijection survives an erase exactly when the source's sift-up branch is not taken, or its
      reset line is the intended one: as written, that branch leaves the moved node in the heap with
      index -1. */
  lemma EraseExact<N>(h: Heap<N>, key: map<N, Timeval>, d: N, rev: Revision)
    requires MayErase(h, key, d)
    ensures var r, sound := Erase(h, key, d, rev), rev.AsIntended? || !SiftsUp(h.slots, key, h.index[d]);
      && (Valid(r, key) <==> sound)
      && (sound ==> r.index[d] == -1)
      && (!sound ==> var last := h.slots[|h.slots| - 1]; last in r.slots && last in r.index && r.index[last] == -1)
  {
    hide Erase, ShiftUp, ShiftDown, Sifted, Ordered, OrderedBut, NotAboveParent, HoleFilled;
    var i, n := h.index[d], |h.slots|;
    var q, last, r := Sifted(h, key, i), h.slots[n - 1], Erase(h, key, d, rev);
    EraseIsSift(h, key, d, rev);
    EraseContents(h, key, d, rev);
    LastSlotAfterSift(h, key, d);
    SiftedFilled(h, key, d);
    if rev.AsWritten? && SiftsUp(h.slots, key, i) {
      assert r.slots[q.index[last]] == last && r.index[last] == -1;
    } else {
      ResetIndexed(h, key, i, q);
      assert r == Heap(DropLast(q.slots), q.index[d := -1]);
    }
  }

  /** Popping is erasing the top, which the source never sifts up. */
  lemma PopIsErase<N>(h: Heap<N>, key: map<N, Timeval>, rev: Revision)
    requires Valid(h, key) && h.slots != []
    ensures !SiftsUp(h.slots, key, 0) && Pop(h, key) == Erase(h, key, h.slots[0], rev)
  {}

  lemma ValidMayErase<N>(h: Heap<N>, key: map<N, Timeval>, d: N)
    requires Valid(h, key) && d in key && h.index[d] != -1
    ensures MayErase(h, key, d)
  {
    OverwrittenMayErase(h, key, d, key[d]);
    assert key[d := key[d]] == key;
  }

  /** The top is the earliest node. */
  lemma {:induction false} TopIsEarliest<N>(s: seq<N>, key: map<N, Timeval>, i: nat)
    requires i < |s| && Keyed(s, key) && Ordered(s, key)
    ensures !Greater(key[s[0]], key[s[i]])
    decreases i
  {
    if i != 0 {
      assert Parent(i) < i;
      TopIsEarliest(s, key, Parent(i));
    }
  }

  /** Popping a heap takes out an earliest node and keeps the rest valid. */
  lemma PopCorrect<N>(h: Heap<N>, key: map<N, Timeval>)
    requires Valid(h, key) && h.slots != []
    ensures var r, top := Pop(h, key), h.slots[0];
      && Valid(r, key) && r.index[top] == -1
      && multiset(r.slots) == multiset(h.slots) - multiset{top}
      && Members(r) == Members(h) - {top}
      && |r.slots| == |h.slots| - 1
    ensures forall x :: x in h.slots ==> !Greater(key[h.slots[0]], key[x])
  {
    PopIsErase(h, key, AsIntended);
    ValidMayErase(h, key, h.slots[0]);
    EraseContents(h, key, h.slots[0], AsIntended);
    EraseExact(h, key, h.slots[0], AsIntended);
    LastSlotAfterSift(h, key, h.slots[0]);
    forall x | x in h.slots ensures !Greater(key[h.slots[0]], key[x]) {
      var i :| 0 <= i < |h.slots| && h.slots[i] == x;
      TopIsEarliest(h.slots, key, i);
    }
  }

  // ---------------------------------------------------------------------------------------------
  // Re-registering

  /** Slot `a` is slot `b` or above it. */
  ghost predicate OnPath(a: nat, b: nat)
    decreases b
  {
    a == b || (b > 0 && OnPath(a, Parent(b)))
  }

  lemma {:induction false} ShiftUpContents<N>(h: Heap<N>, key: map<N, Timeval>, hole: nat, e: N)
    requires hole < |h.slots| && KeyedBut(h.slots, key, hole) && e in key
    ensures multiset(ShiftUp(h, key, hole, e).slots) == multiset(h.slots[hole := e])
    decreases hole
  {
    var p := Parent(hole);
    if hole != 0 && Greater(key[h.slots[p]], key[e]) {
      ShiftUpContents(MoveHole(h, hole, p), key, p, e);
      MoveKeeps(h.slots, hole, p, e);
    }
  }

  /** A node that is sifted up lands above the hole, in a slot whose node was later. */
  lemma {:induction false} ShiftUpLands<N>(h: Heap<N>, key: map<N, Timeval>, hole: nat, e: N)
    requires 0 < hole < |h.slots| && KeyedBut(h.slots, key, hole) && e in key
    requires Greater(key[h.slots[Parent(hole)]], key[e])
    ensures var r := ShiftUp(h, key, hole, e);
      && |r.slots| == |h.slots| && e in r.index && 0 <= r.index[e] < hole && OnPath(r.index[e], hole)
      && r.slots[r.index[e]] == e && Greater(key[h.slots[r.index[e]]], key[e])
    decreases hole
  {
    var p := Parent(hole);
    var m := MoveHole(h, hole, p);
    ShiftUpOnce(h, key, hole, e);
    if p != 0 && Greater(key[m.slots[Parent(p)]], key[e]) {
      ShiftUpLands(m, key, p, e);
    } else {
      ShiftUpStops(m, key, p, e);
    }
  }

  /** A sift-up touches no slot off its path, and no node that is only there. */
  lemma {:induction false} ShiftUpOffPath<N>(h: Heap<N>, key: map<N, Timeval>, hole: nat, e: N, m: nat)
    requires hole < |h.slots| && KeyedBut(h.slots, key, hole) && e in key
    requires m < |h.slots| && !OnPath(m, hole) && h.slots[m] != e && h.slots[m] in h.index
    requires forall j :: 0 <= j < |h.slots| && j != m && j != hole ==> h.slots[j] != h.slots[m]
    ensures var r, x := ShiftUp(h, key, hole, e), h.slots[m];
      |r.slots| == |h.slots| && r.slots[m] == x && x in r.index && r.index[x] == h.index[x]
    decreases hole
  {
    var p := Parent(hole);
    if hole != 0 && Greater(key[h.slots[p]], key[e]) {
      ShiftUpOffPath(MoveHole(h, hole, p), key, p, e, m);
    }
  }

  /** In a heap that is ordered but at `hole`, slot `b` is no earlier than the slots above it, as long as the hole is
      not among them; and it is no earlier than the hole's parent if it is below the hole. */
  lemma {:induction false} AboveNoLater<N>(s: seq<N>, key: map<N, Timeval>, hole: nat, a: nat, b: nat)
    requires hole < |s| && b < |s| && Keyed(s, key) && OrderedBut(s, key, hole)
    ensures OnPath(a, b) && !OnPath(hole, b) ==> a <= b && !Greater(key[s[a]], key[s[b]])
    ensures OnPath(hole, b) && hole != b && hole > 0 ==> !Greater(key[s[Parent(hole)]], key[s[b]])
    decreases b
  {
    if a != b && OnPath(a, b) && !OnPath(hole, b) {
      AboveNoLater(s, key, hole, a, Parent(b));
      assert !OnPath(hole, Parent(b)) && hole != b;
      assert !Greater(key[s[Parent(b)]], key[s[b]]);
    }
    if OnPath(hole, b) && hole != b && hole > 0 && Parent(b) != hole {
      AboveNoLater(s, key, hole, a, Parent(b));
    }
    if OnPath(hole, b) && hole != b && Parent(b) == hole {
      assert hole < b;
    }
  }

  /** The condition for a node whose key has just been overwritten: the erase leaves everything valid. It does not run
      into the source's sift-up branch; or the branch is as intended, and the node is not the last one itself, as it is
      when its time has moved back before its parent's. */
  ghost predicate SoundErase<N>(h: Heap<N>, key: map<N, Timeval>, d: N, rev: Revision)
    requires Indexed(h, key) && d in key
  {
    h.index[d] == -1 || !SiftsUp(h.slots, key, h.index[d]) || (rev.AsIntended? && h.index[d] < |h.slots| - 1)
  }

  /** After the in-place change of the key the erase still leaves only nodes that have one. */
  lemma OverwrittenKey<N>(h: Heap<N>, key: map<N, Timeval>, d: N, t: Timeval, rev: Revision)
    requires Valid(h, key) && d in key
    ensures Indexed(h, key[d := t]) && Keyed(Erase(h, key[d := t], d, rev).slots, key[d := t])
    ensures h.index[d] == -1 ==> Valid(h, key[d := t])
  {
    hide Erase, ShiftUp;
    var key' := key[d := t];
    if h.index[d] != -1 {
      OverwrittenMayErase(h, key, d, t);
      if MayErase(h, key', d) {
        EraseContents(h, key', d, rev);
      } else {
        LastErased(h, key', d, rev);
      }
    } else {
      EraseOutside(h, key', d, rev);
      forall c {:trigger Parent(c)} | 0 < c < |h.slots|
        ensures !Greater(key'[h.slots[Parent(c)]], key'[h.slots[c]])
      {
        assert h.slots[c] != d && h.slots[Parent(c)] != d;
      }
    }
  }

  /** The last node, earlier than its parent, is erased: it is sifted up, and another node is dropped instead of it. */
  lemma LastErased<N>(h: Heap<N>, key: map<N, Timeval>, d: N, rev: Revision)
    requires Indexed(h, key) && d in key && 0 <= h.index[d] == |h.slots| - 1 && SiftsUp(h.slots, key, h.index[d])
    ensures var e := Erase(h, key, d, rev);
      && |e.slots| == |h.slots| - 1 && Keyed(e.slots, key)
      && d in e.slots && d in e.index && e.index[d] == -1
  {
    hide ShiftUp;
    var i := h.index[d];
    ShiftUpContents(h, key, i, d);
    ShiftUpLands(h, key, i, d);
    var q := ShiftUp(h, key, i, d);
    assert h.slots[i := d] == h.slots;
    forall j | 0 <= j < |q.slots| ensures q.slots[j] in key {
      assert q.slots[j] in multiset(q.slots);
    }
    assert DropLast(q.slots)[q.index[d]] == d;
  }

  /** Then the push, which puts the node in once more, cannot repair the heap. */
  lemma LastStaysBroken<N>(h: Heap<N>, key: map<N, Timeval>, d: N, rev: Revision)
    requires Indexed(h, key) && d in key && 0 <= h.index[d] == |h.slots| - 1 && SiftsUp(h.slots, key, h.index[d])
    ensures var e := Erase(h, key, d, rev);
      Keyed(e.slots, key) && !Valid(e, key) && !Valid(Push(e, key, d), key)
  {
    hide ShiftUp, Erase, Ordered;
    LastErased(h, key, d, rev);
    var e := Erase(h, key, d, rev);
    var n, r := |e.slots|, Push(e, key, d);
    ShiftUpContents(Heap(e.slots + [d], e.index), key, n, d);
    assert (e.slots + [d])[n := d] == e.slots + [d];
    assert d in multiset(e.slots);
    assert multiset(r.slots) == multiset(e.slots) + multiset{d};
    if Indexed(r, key) {
      assert d in multiset(r.slots);
      var j :| 0 <= j < |r.slots| && r.slots[j] == d;
      SingleOccurrence(r, key, j);
    }
  }

  /** As written, a node that the erase has sifted up and taken for erased stays unknown to itself after the push: its
      slot is not above the last one. */
  lemma SiftedStaysBroken<N>(h: Heap<N>, key: map<N, Timeval>, d: N)
    requires MayErase(h, key, d) && SiftsUp(h.slots, key, h.index[d])
    ensures var e := Erase(h, key, d, AsWritten);
      Keyed(e.slots, key) && !Valid(e, key) && !Valid(Push(e, key, d), key)
  {
    hide ShiftUp, Erase, Ordered, OrderedBut, NotAboveParent, MayErase, Indexed, Sifted, HoleFilled;
    MayEraseFacts(h, key, d);
    var i, n := h.index[d], |h.slots|;
    var q, last, e := Sifted(h, key, i), h.slots[n - 1], Erase(h, key, d, AsWritten);
    EraseIsSift(h, key, d, AsWritten);
    EraseContents(h, key, d, AsWritten);
    EraseExact(h, key, d, AsWritten);
    SiftedFilled(h, key, d);
    LastSlotAfterSift(h, key, d);
    SiftedParts(h, key, i, q);
    SiftedLands(h, key, d);
    LostStaysLost(e, key, d, q.index[last]);
  }

  /** A push does not find a node that does not know its slot, unless that slot is above the new one. */
  lemma LostStaysLost<N>(h: Heap<N>, key: map<N, Timeval>, d: N, p: nat)
    requires Keyed(h.slots, key) && d in key && p < |h.slots| && !OnPath(p, |h.slots|)
    requires h.slots[p] != d && h.slots[p] in h.index && h.index[h.slots[p]] == -1
    requires forall j :: 0 <= j < |h.slots| && j != p ==> h.slots[j] != h.slots[p]
    ensures !Valid(Push(h, key, d), key)
  {
    hide ShiftUp, Ordered, Indexed;
    ShiftUpOffPath(Heap(h.slots + [d], h.index), key, |h.slots|, d, p);
    NotIndexed(Push(h, key, d), key, p);
  }

  lemma NotIndexed<N>(r: Heap<N>, key: map<N, Timeval>, p: nat)
    requires p < |r.slots| && r.slots[p] in r.index && r.index[r.slots[p]] == -1
    ensures !Valid(r, key)
  {}

  lemma SiftedLands<N>(h: Heap<N>, key: map<N, Timeval>, d: N)
    requires MayErase(h, key, d) && SiftsUp(h.slots, key, h.index[d])
    ensures var last, q := h.slots[|h.slots| - 1], Sifted(h, key, h.index[d]);
      last in q.index && 0 <= q.index[last] < |h.slots| - 1 && !OnPath(q.index[last], |h.slots| - 1)
  {
    hide ShiftUp;
    var i, n := h.index[d], |h.slots|;
    var last, q := h.slots[n - 1], Sifted(h, key, i);
    ShiftUpLands(h, key, i, last);
    AboveNoLater(h.slots, key, i, q.index[last], n - 1);
  }

  /** Re-registering a timer: the key of a node is overwritten in place by any time, the node is erased although the heap
      may be out of order at it, and pushed again. The erase leaves a valid heap exactly when it is sound in the sense
      above; only then the push ends in a valid heap, and that holds the node once besides the others. */
  lemma ReRegister<N>(h: Heap<N>, key: map<N, Timeval>, d: N, t: Timeval, rev: Revision)
    requires Valid(h, key) && d in key
    ensures var key' := key[d := t];
      var e := Erase(h, key', d, rev);
      && Indexed(h, key') && Keyed(e.slots, key')
      && (Valid(e, key') <==> SoundErase(h, key', d, rev))
      && (Valid(Push(e, key', d), key') <==> SoundErase(h, key', d, rev))
      && (SoundErase(h, key', d, rev) ==>
            && e.index[d] == -1
            && Members(Push(e, key', d)) == Members(h) + {d}
            && multiset(Push(e, key', d).slots) ==
               (if h.index[d] == -1 then multiset(h.slots) + multiset{d} else multiset(h.slots)))
    ensures rev.AsIntended? && (h.index[d] != -1 ==> !Greater(key[d], t)) ==> SoundErase(h, key[d := t], d, rev)
  {
    hide Erase, Push, Ordered, MayErase;
    var key' := key[d := t];
    OverwrittenKey(h, key, d, t, rev);
    var e := Erase(h, key', d, rev);
    if h.index[d] == -1 {
      EraseOutside(h, key', d, rev);
    } else {
      OverwrittenMayErase(h, key, d, t);
      if !MayErase(h, key', d) {
        LastStaysBroken(h, key', d, rev);
      } else {
        EraseContents(h, key', d, rev);
        EraseExact(h, key', d, rev);
        MayEraseLast(h, key', d);
        assert d in multiset(h.slots) by { assert h.slots[h.index[d]] == d; }
        if !SoundErase(h, key', d, rev) {
          SiftedStaysBroken(h, key', d);
        }
      }
    }
    if Valid(e, key') {
      PushCorrect(e, key', d);
    }
  }

  lemma MayEraseLast<N>(h: Heap<N>, key: map<N, Timeval>, d: N)
    requires MayErase(h, key, d)
    ensures h.index[d] == |h.slots| - 1 ==> !SiftsUp(h.slots, key, h.index[d])
  {}
}
