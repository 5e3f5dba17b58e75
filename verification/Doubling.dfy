// Capacities that are doubled until there is room, as the buffers of a connection and the slot array of the heap are.

module Doubling {
  function PowerOf2(k: nat): nat {
    if k == 0 then 1 else 2 * PowerOf2(k - 1)
  }

  /** `while (capacity - used < need) capacity *= 2;` */
  function Grown(capacity: nat, used: nat, need: int): (c: nat)
    requires 0 < capacity
    ensures c >= capacity && c - used >= need
    decreases need + used - capacity
  {
    if capacity - used >= need then capacity else Grown(2 * capacity, used, need)
  }

  /** `c` is `capacity` times the smallest power of two that leaves `need` bytes behind the `used` ones. */
  ghost predicate LeastDoubling(capacity: nat, used: nat, need: int, c: nat) {
    && c - used >= need
    && exists k: nat :: c == capacity * PowerOf2(k) && (k > 0 ==> capacity * PowerOf2(k - 1) - used < need)
  }

  lemma {:induction false} GrownIsLeast(capacity: nat, used: nat, need: int)
    requires 0 < capacity
    ensures LeastDoubling(capacity, used, need, Grown(capacity, used, need))
    decreases need + used - capacity
  {
    var c := Grown(capacity, used, need);
    if capacity - used >= need {
      assert c == capacity * PowerOf2(0);
    } else {
      GrownIsLeast(2 * capacity, used, need);
      var k: nat :| c == (2 * capacity) * PowerOf2(k) && (k > 0 ==> (2 * capacity) * PowerOf2(k - 1) - used < need);
      DoubleOnce(capacity, k);
      if k > 0 {
        DoubleOnce(capacity, k - 1);
      } else {
        assert capacity * PowerOf2(k) == capacity;
      }
      assert c == capacity * PowerOf2(k + 1) && capacity * PowerOf2(k + 1 - 1) - used < need;
    }
  }

  lemma DoubleOnce(capacity: nat, k: nat)
    ensures (2 * capacity) * PowerOf2(k) == capacity * PowerOf2(k + 1)
  {
    assert PowerOf2(k + 1) == 2 * PowerOf2(k);
  }

  lemma {:induction false} PowerMonotone(j: nat, k: nat)
    requires j <= k
    ensures 1 <= PowerOf2(j) <= PowerOf2(k)
    decreases k
  {
    if j < k {
      PowerMonotone(j, k - 1);
    } else if j > 0 {
      PowerMonotone(j - 1, j - 1);
    }
  }

  lemma EnoughStaysEnough(capacity: nat, j: nat, k: nat)
    requires j <= k
    ensures capacity * PowerOf2(j) <= capacity * PowerOf2(k)
  {
    PowerMonotone(j, k);
    var p, q := PowerOf2(j), PowerOf2(k);
    assert capacity * (q - p) >= 0;
  }

  /** There is only one such capacity. */
  lemma LeastDoublingUnique(capacity: nat, used: nat, need: int, c: nat, d: nat)
    requires LeastDoubling(capacity, used, need, c) && LeastDoubling(capacity, used, need, d)
    ensures c == d
  {
    hide PowerOf2;
    var j: nat :| c == capacity * PowerOf2(j) && (j > 0 ==> capacity * PowerOf2(j - 1) - used < need);
    var k: nat :| d == capacity * PowerOf2(k) && (k > 0 ==> capacity * PowerOf2(k - 1) - used < need);
    if j < k {
      EnoughStaysEnough(capacity, j, k - 1);
    } else if k < j {
      EnoughStaysEnough(capacity, k, j - 1);
    }
  }
}
