/**
 * Slot-level helpers of pyjac/core/shared_memory.py: the number of slots a
 * thread gets, the address text of a slot, and the deterministic (ascending
 * slot index) iteration order this model fixes for the slot dictionary.
 */
module Slots {
  import opened Optional
  import opened Text
  import opened SharedVariable

  /**
   * Slots per thread: the shared memory of one multiprocessor split evenly
   * between its resident blocks, then between the threads of a block, each
   * split rounding down. The result is the largest per-thread slot count such
   * that every thread of every resident block gets that many slots within the
   * shared memory.
   */
  function Capacity(sharedSize: nat, blocksPerSm: nat, numThreads: nat): (c: nat)
    requires blocksPerSm > 0 && numThreads > 0
    ensures c * numThreads * blocksPerSm <= sharedSize
    ensures sharedSize < (c + 1) * numThreads * blocksPerSm
  {
    var c := (sharedSize / blocksPerSm) / numThreads;
    assert c * numThreads * blocksPerSm <= sharedSize < (c + 1) * numThreads * blocksPerSm by {
      FloorDivisionsFit(sharedSize, blocksPerSm, numThreads);
    }
    c
  }

  /** Two floored divisions in a row bracket the dividend by multiples of the product of the divisors. */
  lemma FloorDivisionsFit(sharedSize: nat, blocksPerSm: nat, numThreads: nat)
    requires blocksPerSm > 0 && numThreads > 0
    ensures (sharedSize / blocksPerSm) / numThreads * numThreads * blocksPerSm <= sharedSize
    ensures sharedSize < ((sharedSize / blocksPerSm) / numThreads + 1) * numThreads * blocksPerSm
  {
    var perBlock := sharedSize / blocksPerSm;
    var c := perBlock / numThreads;
    var r1 := sharedSize % blocksPerSm;
    var r2 := perBlock % numThreads;
    assert sharedSize == perBlock * blocksPerSm + r1;
    assert perBlock == c * numThreads + r2;
    assert sharedSize == c * numThreads * blocksPerSm + r2 * blocksPerSm + r1 by {
      assert perBlock * blocksPerSm == (c * numThreads + r2) * blocksPerSm;
      assert (c * numThreads + r2) * blocksPerSm == c * numThreads * blocksPerSm + r2 * blocksPerSm;
    }
    assert r2 * blocksPerSm + r1 < numThreads * blocksPerSm by {
      assert r2 + 1 <= numThreads;
      assert (r2 + 1) * blocksPerSm <= numThreads * blocksPerSm;
      assert (r2 + 1) * blocksPerSm == r2 * blocksPerSm + blocksPerSm;
    }
    assert (c + 1) * numThreads * blocksPerSm == c * numThreads * blocksPerSm + numThreads * blocksPerSm;
  }

  /** The skeleton `'shared_temp[{}]'` filled with an index expression. */
  function Skeleton(arg: string): string
  {
    "shared_temp[" + arg + "]"
  }

  /**
   * The private `__get_string`: slot n of a thread lies n block-widths after
   * the thread's own entry, so threads of a block touch adjacent words. Every
   * address indexes the `shared_temp` array that `write_init` declares.
   */
  function SlotAddress(n: nat): string
  {
    if n == 0 then Skeleton("threadIdx.x")
    else Skeleton("threadIdx.x + " + NatToString(n) + " * blockDim.x")
  }

  /**
   * An address indexes `shared_temp`; inside the brackets slot 0 is the
   * thread's own index and slot n that index plus n block widths, n in decimal.
   */
  lemma SlotAddressForm(n: nat)
    ensures |SlotAddress(n)| >= 13 && SlotAddress(n)[..12] == "shared_temp[" && SlotAddress(n)[|SlotAddress(n)| - 1] == ']'
    ensures n == 0 ==> SlotAddress(n)[12..|SlotAddress(n)| - 1] == "threadIdx.x"
    ensures n > 0 ==> SlotAddress(n)[12..|SlotAddress(n)| - 1] == "threadIdx.x + " + NatToString(n) + " * blockDim.x"
  {
    var arg := if n == 0 then "threadIdx.x" else "threadIdx.x + " + NatToString(n) + " * blockDim.x";
    assert SlotAddress(n) == "shared_temp[" + arg + "]";
    assert SlotAddress(n)[12..|SlotAddress(n)| - 1] == arg;
  }

  lemma SkeletonInjective(x: string, y: string)
    requires Skeleton(x) == Skeleton(y)
    ensures x == y
  {
    var p := "shared_temp[";
    assert |x| == |y|;
    assert x == Skeleton(x)[|p|..|p| + |x|];
    assert y == Skeleton(y)[|p|..|p| + |y|];
  }

  /** Distinct slots have distinct addresses. */
  lemma SlotAddressInjective(a: nat, b: nat)
    requires SlotAddress(a) == SlotAddress(b)
    ensures a == b
  {
    var p, q := "threadIdx.x + ", " * blockDim.x";
    if a == 0 || b == 0 {
      assert |SlotAddress(0)| == 24;
      assert a != 0 ==> |SlotAddress(a)| > 24;
      assert b != 0 ==> |SlotAddress(b)| > 24;
    } else {
      var da, db := NatToString(a), NatToString(b);
      SkeletonInjective(p + da + q, p + db + q);
      assert |da| == |db|;
      assert da == (p + da + q)[|p|..|p| + |da|];
      assert db == (p + db + q)[|p|..|p| + |db|];
      NatToStringInjective(a, b);
    }
  }

  /** The array declared by `write_init`, unsized: the kernel's dynamic shared memory. */
  function InitDeclaration(): string
  {
    "extern __shared__ double " + Skeleton("")
  }

  /** `list.count(True)`: the number of true entries, positive exactly when some entry is true. */
  function CountTrue(s: seq<bool>): (r: nat)
    ensures r <= |s|
    ensures r > 0 <==> exists i :: 0 <= i < |s| && s[i]
  {
    if s == [] then 0
    else
      var init := s[..|s| - 1];
      assert forall i :: 0 <= i < |init| ==> init[i] == s[i];
      (if s[|s| - 1] then 1 else 0) + CountTrue(init)
  }

  /** The keys of d below n, in ascending order: this model's dictionary iteration order. */
  function AscendingKeys<V>(d: map<nat, V>, n: nat): (r: seq<nat>)
    ensures forall k :: 0 <= k < |r| ==> r[k] in d && r[k] < n
  {
    if n == 0 then []
    else AscendingKeys(d, n - 1) + (if n - 1 in d then [n - 1] else [])
  }

  lemma {:induction false} AscendingKeysSpec<V>(d: map<nat, V>, n: nat)
    ensures forall k :: k in AscendingKeys(d, n) <==> k < n && k in d
    ensures forall p, q :: 0 <= p < q < |AscendingKeys(d, n)| ==> AscendingKeys(d, n)[p] < AscendingKeys(d, n)[q]
  {
    if n > 0 {
      AscendingKeysSpec(d, n - 1);
      var prev := AscendingKeys(d, n - 1);
      var r := AscendingKeys(d, n);
      assert r == prev + (if n - 1 in d then [n - 1] else []);
      forall p, q | 0 <= p < q < |r|
        ensures r[p] < r[q]
      {
        if q >= |prev| {
          assert r[p] == prev[p] && prev[p] in prev;
        }
      }
    }
  }

  lemma {:induction false} AscendingKeysOfEmpty<V>(d: map<nat, V>, n: nat)
    requires d == map[]
    ensures AscendingKeys(d, n) == []
  {
    if n > 0 {
      AscendingKeysOfEmpty(d, n - 1);
    }
  }

  /**
   * The first slot in [from, n), in ascending order, whose resident equals the
   * reference (base, index), the resident on the left of `==`.
   */
  function FirstMatch(d: map<nat, Variable>, base: string, index: Option<int>, from: nat, n: nat): (r: Option<nat>)
    ensures r.Some? ==> from <= r.value < n && r.value in d && d[r.value].Matches(base, index)
    ensures r.Some? ==> forall t :: from <= t < r.value && t in d ==> !d[t].Matches(base, index)
    ensures r.None? ==> forall t :: from <= t < n && t in d ==> !d[t].Matches(base, index)
    decreases n - from
  {
    if from >= n then None
    else if from in d && d[from].Matches(base, index) then Some(from)
    else FirstMatch(d, base, index, from + 1, n)
  }

  function SeqSet(s: seq<nat>): set<nat>
  {
    set i | 0 <= i < |s| :: s[i]
  }

  lemma {:induction false} DistinctSeqSetSize(s: seq<nat>)
    requires forall i, j :: 0 <= i < j < |s| ==> s[i] != s[j]
    ensures |SeqSet(s)| == |s|
  {
    if s != [] {
      var init := s[..|s| - 1];
      DistinctSeqSetSize(init);
      assert SeqSet(s) == SeqSet(init) + {s[|s| - 1]};
      assert s[|s| - 1] !in SeqSet(init);
    }
  }

  function SlotSet(n: nat): (r: set<nat>)
    ensures forall s :: s in r <==> 0 <= s < n
  {
    if n == 0 then {} else SlotSet(n - 1) + {n - 1}
  }

  lemma {:induction false} SlotSetSize(n: nat)
    ensures |SlotSet(n)| == n
  {
    if n > 0 {
      var prev := SlotSet(n - 1);
      SlotSetSize(n - 1);
      assert n - 1 !in prev;
      assert |prev + {n - 1}| == |prev| + 1;
    }
  }

  /**
   * The slot bookkeeping: residents sit in slots below the capacity, the
   * free stack holds only non-resident slots below the capacity and none
   * twice, residents and free slots together number the capacity, and no
   * object sits in two slots.
   */
  predicate Bookkeeping<V(==)>(d: map<nat, V>, free: seq<nat>, capacity: nat)
  {
    && (forall s :: s in d ==> s < capacity)
    && (forall i :: 0 <= i < |free| ==> free[i] < capacity && free[i] !in d)
    && (forall i, j :: 0 <= i < j < |free| ==> free[i] != free[j])
    && |d| + |free| == capacity
    && (forall s, t :: s in d && t in d && s != t ==> d[s] != d[t])
  }

  /** Popping the last free slot and making v, held nowhere, its resident keeps the bookkeeping. */
  lemma BookkeepingAfterAdmission<V>(d: map<nat, V>, free: seq<nat>, capacity: nat, v: V)
    requires Bookkeeping(d, free, capacity) && free != [] && v !in d.Values
    ensures free[|free| - 1] !in d
    ensures Bookkeeping(d[free[|free| - 1] := v], free[..|free| - 1], capacity)
  {
    var p, rest := free[|free| - 1], free[..|free| - 1];
    var d' := d[p := v];
    assert p !in d;
    assert d'.Keys == d.Keys + {p};
    forall i | 0 <= i < |rest|
      ensures rest[i] < capacity && rest[i] !in d'
    {
      assert rest[i] == free[i] && free[i] != free[|free| - 1];
    }
    forall s, t | s in d' && t in d' && s != t
      ensures d'[s] != d'[t]
    {
      if s == p {
        assert d'[t] == d[t] && d[t] in d.Values;
      } else if t == p {
        assert d'[s] == d[s] && d[s] in d.Values;
      }
    }
  }

  /** Removing resident slot s and pushing it on the free stack keeps the bookkeeping. */
  lemma BookkeepingAfterEviction<V>(d: map<nat, V>, free: seq<nat>, capacity: nat, s: nat)
    requires Bookkeeping(d, free, capacity) && s in d
    ensures Bookkeeping(d - {s}, free + [s], capacity)
  {
    assert d.Keys == (d - {s}).Keys + {s};
  }

  /**
   * Slots in use and free slots, disjoint and together as many as the
   * capacity, cover every slot: each slot is resident or free.
   */
  lemma EverySlotResidentOrFree(capacity: nat, inUse: set<nat>, free: seq<nat>)
    requires forall s :: s in inUse ==> s < capacity
    requires forall i :: 0 <= i < |free| ==> free[i] < capacity && free[i] !in inUse
    requires forall i, j :: 0 <= i < j < |free| ==> free[i] != free[j]
    requires |inUse| + |free| == capacity
    ensures forall s :: 0 <= s < capacity ==> (s in inUse <==> s !in free)
  {
    var f := SeqSet(free);
    DistinctSeqSetSize(free);
    SlotSetSize(capacity);
    var all := inUse + f;
    assert inUse !! f;
    assert |all| == capacity;
    assert all <= SlotSet(capacity);
    assert SlotSet(capacity) == all + (SlotSet(capacity) - all);
    assert |SlotSet(capacity) - all| == 0;
    forall s | 0 <= s < capacity
      ensures s in inUse <==> s !in free
    {
      assert s in SlotSet(capacity);
      if s in free {
        var i :| 0 <= i < |free| && free[i] == s;
      }
      if s !in inUse {
        assert s in f;
      }
    }
  }
}
