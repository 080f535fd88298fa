/**
 * `shared_memory_manager` of pyjac/core/shared_memory.py: a fixed number of
 * per-thread shared-memory slots, the variables resident in them, a stack of
 * free slots and a per-slot eviction mark. The CUDA code generator asks it, at
 * every load point, to bring the variables about to be used into shared memory.
 *
 * Python dictionaries iterate in hash order; this model iterates the slot
 * dictionary in ascending slot index wherever the order matters (tie-breaks,
 * forced eviction, emitted lines).
 */
module SharedMemory {
  import opened Optional
  import opened Text
  import opened SharedVariable
  import opened UsageRanking
  import opened Slots
  import opened Admission

  /** The self-eviction strategy: a resident idle for two load points may be evicted. */
  predicate SelfEvictionStrategy(lastUseCount: nat)
  {
    lastUseCount >= 2
  }

  /**
   * The eviction mark a resident gets at a load point, given whether it is
   * requested: a request always clears the mark, an unrequested resident the
   * strategy selects is marked, and the mark changes in no other case.
   */
  function Marking(lastUseCount: nat, requested: bool, wasMarked: bool): (m: bool)
    ensures requested ==> !m
    ensures !requested && SelfEvictionStrategy(lastUseCount) ==> m
    ensures m != wasMarked ==> requested || SelfEvictionStrategy(lastUseCount)
  {
    if SelfEvictionStrategy(lastUseCount) && !requested then true
    else if requested then false
    else wasMarked
  }

  /**
   * `usage <= 1`: a candidate is not worth a slot. Without estimates the usage
   * is `None`, and Python 2 orders `None` below every number.
   */
  predicate SkipAdmission(usage: Option<int>)
  {
    usage.None? || usage.value <= 1
  }

  /**
   * The candidates in the order they are considered: with estimates, the
   * requested variables in the sort's order (descending estimate, stable)
   * paired with their estimate; without, as given and with no estimate.
   */
  function Candidates(variables: seq<Variable>, estimatedUsage: Option<seq<int>>): (c: seq<(Variable, Option<int>)>)
    requires estimatedUsage.Some? ==> |estimatedUsage.value| >= |variables|
    ensures |c| == |variables|
    ensures forall k :: 0 <= k < |c| ==> c[k].0 in variables
    ensures estimatedUsage.None? ==> forall k :: 0 <= k < |c| ==> c[k] == (variables[k], None)
    ensures estimatedUsage.Some? ==> forall k :: 0 <= k < |c| ==>
      c[k] == (variables[RankOrder(estimatedUsage.value, |variables|)[k]], Some(estimatedUsage.value[RankOrder(estimatedUsage.value, |variables|)[k]]))
  {
    if estimatedUsage.None? then
      seq(|variables|, k requires 0 <= k < |variables| => (variables[k], None))
    else
      var est := estimatedUsage.value;
      var order := RankOrder(est, |variables|);
      seq(|variables|, k requires 0 <= k < |variables| => (variables[order[k]], Some(est[order[k]])))
  }

  predicate IsCandidate(c: seq<(Variable, Option<int>)>, v: Variable)
  {
    exists k :: 0 <= k < |c| && c[k].0 == v
  }

  /** Every requested variable is a candidate. */
  lemma CandidatesCoverRequests(variables: seq<Variable>, estimatedUsage: Option<seq<int>>)
    requires estimatedUsage.Some? ==> |estimatedUsage.value| >= |variables|
    ensures forall i :: 0 <= i < |variables| ==> IsCandidate(Candidates(variables, estimatedUsage), variables[i])
  {
    var c := Candidates(variables, estimatedUsage);
    forall i | 0 <= i < |variables|
      ensures IsCandidate(c, variables[i])
    {
      if estimatedUsage.None? {
        assert c == seq(|variables|, k requires 0 <= k < |variables| => (variables[k], None));
        assert c[i].0 == variables[i];
      } else {
        var order := RankOrder(estimatedUsage.value, |variables|);
        RankOrderCovers(estimatedUsage.value, |variables|);
        assert i in order;
        var k :| 0 <= k < |order| && order[k] == i;
        assert c == seq(|variables|, k requires 0 <= k < |variables| => (variables[order[k]], Some(estimatedUsage.value[order[k]])));
        assert c[k].0 == variables[i];
      }
    }
  }

  /**
   * With estimates, the candidates are the requested positions permuted, each
   * with its own estimate, in descending order of estimate, and positions
   * with equal estimates keep their original order (the sort is stable).
   */
  lemma CandidatesDescending(variables: seq<Variable>, est: seq<int>)
    requires |est| >= |variables|
    ensures var o := RankOrder(est, |variables|);
      multiset(o) == multiset(Range(|variables|))
    ensures var c, o := Candidates(variables, Some(est)), RankOrder(est, |variables|);
      forall k :: 0 <= k < |variables| ==> c[k] == (variables[o[k]], Some(est[o[k]]))
    ensures var c, o := Candidates(variables, Some(est)), RankOrder(est, |variables|);
      forall p, q :: 0 <= p < q < |variables| ==>
        c[p].1.value > c[q].1.value || (c[p].1.value == c[q].1.value && o[p] < o[q])
  {
    var c := Candidates(variables, Some(est));
    var order := RankOrder(est, |variables|);
    RankOrderPermutes(est, |variables|);
    RankOrderRanked(est, |variables|);
    forall p, q | 0 <= p < q < |variables|
      ensures c[p].1.value > c[q].1.value || (c[p].1.value == c[q].1.value && order[p] < order[q])
    {
      assert Precedes(est, order[p], order[q]);
    }
  }

  /**
   * Lines 118-120 on a state: with the slots full and something marked,
   * `evict_longest_gap` evicts the longest-idle marked resident, counts
   * giving the idle counts of the residents.
   */
  function EvictIfFull(c: Snapshot, counts: map<nat, nat>, capacity: nat, onEviction: bool): Snapshot
  {
    if |c.residents| >= capacity && CountTrue(c.marks) > 0 then
      match LongestGap(c.residents, c.marks, counts, |c.marks|)
      case Some(s) => EvictSlot(c, s, onEviction)
      case None => c
    else c
  }

  /**
   * With the slots full and some resident marked, the step evicts the
   * longest-idle marked resident (the lowest slot among equals); otherwise
   * it changes nothing.
   */
  lemma EvictIfFullChoosesLongest(c: Snapshot, counts: map<nat, nat>, capacity: nat, onEviction: bool)
    requires forall t :: 0 <= t < |c.marks| && c.marks[t] ==> t in c.residents && t in counts
    ensures |c.residents| >= capacity && CountTrue(c.marks) > 0 ==>
      && LongestGap(c.residents, c.marks, counts, |c.marks|).Some?
      && LongestAmong(c.residents, c.marks, counts, |c.marks|, LongestGap(c.residents, c.marks, counts, |c.marks|).value)
      && EvictIfFull(c, counts, capacity, onEviction) == EvictSlot(c, LongestGap(c.residents, c.marks, counts, |c.marks|).value, onEviction)
    ensures |c.residents| < capacity || CountTrue(c.marks) == 0 ==> EvictIfFull(c, counts, capacity, onEviction) == c
  {
    LongestGapSpec(c.residents, c.marks, counts, |c.marks|);
    if |c.residents| >= capacity && CountTrue(c.marks) > 0 {
      var t :| 0 <= t < |c.marks| && c.marks[t];
      assert t in c.residents && t in counts;
    }
  }

  /** Lines 122-123 (and 129-130) on a state: with a slot free, v takes the last free slot. */
  function AdmitIfRoom(c: Snapshot, v: Variable, capacity: nat): Snapshot
  {
    if |c.residents| < capacity && c.free != [] then AdmitInto(c, v) else c
  }

  /**
   * One candidate of the first pass (lines 111-123): a candidate that is not
   * resident and whose usage is above one evicts when the slots are full and
   * something is marked, then is admitted if a slot is free.
   */
  function FirstStep(c: Snapshot, cand: (Variable, Option<int>), counts: map<nat, nat>, capacity: nat, onEviction: bool): Snapshot
  {
    if !Resident(c.residents, cand.0) && !SkipAdmission(cand.1) then
      AdmitIfRoom(EvictIfFull(c, counts, capacity, onEviction), cand.0, capacity)
    else c
  }

  /** The first admission pass (lines 106-123) over the first n candidates. */
  function FirstPass(c: Snapshot, cands: seq<(Variable, Option<int>)>, n: nat, counts: map<nat, nat>, capacity: nat, onEviction: bool): Snapshot
    requires n <= |cands|
  {
    if n == 0 then c
    else FirstStep(FirstPass(c, cands, n - 1, counts, capacity, onEviction), cands[n - 1], counts, capacity, onEviction)
  }

  /** One candidate of the second pass (lines 129-130): if not resident, admitted if a slot is free. */
  function SecondStep(c: Snapshot, v: Variable, capacity: nat): Snapshot
  {
    if !Resident(c.residents, v) then AdmitIfRoom(c, v, capacity) else c
  }

  /** The second admission pass (lines 127-130) over the first n candidates. */
  function SecondPass(c: Snapshot, cands: seq<(Variable, Option<int>)>, n: nat, capacity: nat): Snapshot
    requires n <= |cands|
  {
    if n == 0 then c
    else SecondStep(SecondPass(c, cands, n - 1, capacity), cands[n - 1].0, capacity)
  }

  /** trace[j + 1] is trace[j] after the first pass's step for candidate j. */
  ghost predicate FirstTrace(trace: seq<Snapshot>, cands: seq<(Variable, Option<int>)>, counts: map<nat, nat>, capacity: nat, onEviction: bool)
  {
    && 0 < |trace| <= |cands| + 1
    && forall j :: 0 < j < |trace| ==> trace[j] == FirstStep(trace[j - 1], cands[j - 1], counts, capacity, onEviction)
  }

  /** trace[j + 1] is trace[j] after the second pass's step for candidate j. */
  ghost predicate SecondTrace(trace: seq<Snapshot>, cands: seq<(Variable, Option<int>)>, capacity: nat)
  {
    && 0 < |trace| <= |cands| + 1
    && forall j :: 0 < j < |trace| ==> trace[j] == SecondStep(trace[j - 1], cands[j - 1].0, capacity)
  }

  /** A first-pass trace extends by the step for its next candidate. */
  lemma FirstTraceExtend(trace: seq<Snapshot>, cands: seq<(Variable, Option<int>)>, counts: map<nat, nat>, capacity: nat, onEviction: bool, next: Snapshot)
    requires FirstTrace(trace, cands, counts, capacity, onEviction) && |trace| <= |cands|
    requires next == FirstStep(trace[|trace| - 1], cands[|trace| - 1], counts, capacity, onEviction)
    ensures FirstTrace(trace + [next], cands, counts, capacity, onEviction)
  {
  }

  /** A second-pass trace extends by the step for its next candidate. */
  lemma SecondTraceExtend(trace: seq<Snapshot>, cands: seq<(Variable, Option<int>)>, capacity: nat, next: Snapshot)
    requires SecondTrace(trace, cands, capacity) && |trace| <= |cands|
    requires next == SecondStep(trace[|trace| - 1], cands[|trace| - 1].0, capacity)
    ensures SecondTrace(trace + [next], cands, capacity)
  {
  }

  /** A trace of first-pass steps ends where the first pass ends. */
  lemma {:induction false} FirstTraceIsPass(trace: seq<Snapshot>, cands: seq<(Variable, Option<int>)>, counts: map<nat, nat>, capacity: nat, onEviction: bool, n: nat)
    requires FirstTrace(trace, cands, counts, capacity, onEviction) && n < |trace|
    ensures trace[n] == FirstPass(trace[0], cands, n, counts, capacity, onEviction)
  {
    if n > 0 {
      FirstTraceIsPass(trace, cands, counts, capacity, onEviction, n - 1);
    }
  }

  /** A trace of second-pass steps ends where the second pass ends. */
  lemma {:induction false} SecondTraceIsPass(trace: seq<Snapshot>, cands: seq<(Variable, Option<int>)>, capacity: nat, n: nat)
    requires SecondTrace(trace, cands, capacity) && n < |trace|
    ensures trace[n] == SecondPass(trace[0], cands, n, capacity)
  {
    if n > 0 {
      SecondTraceIsPass(trace, cands, capacity, n - 1);
    }
  }

  /**
   * Admission at a load point (lines 100-130): the first pass over the
   * candidates, then, when the estimates are given and not empty, the second.
   */
  function AdmissionOutcome(c: Snapshot, variables: seq<Variable>, estimatedUsage: Option<seq<int>>,
                            counts: map<nat, nat>, capacity: nat, onEviction: bool): Snapshot
    requires estimatedUsage.Some? ==> |estimatedUsage.value| >= |variables|
  {
    var cands := Candidates(variables, estimatedUsage);
    var first := FirstPass(c, cands, |cands|, counts, capacity, onEviction);
    if estimatedUsage.Some? && |estimatedUsage.value| > 0 then SecondPass(first, cands, |cands|, capacity) else first
  }

  /**
   * Without estimates every usage is `None`, which Python 2 orders below 1,
   * so the first pass, and with it the whole admission, changes nothing.
   */
  lemma {:induction false} NoEstimatesAdmitNothing(c: Snapshot, variables: seq<Variable>, n: nat, counts: map<nat, nat>, capacity: nat, onEviction: bool)
    requires n <= |variables|
    ensures FirstPass(c, Candidates(variables, None), n, counts, capacity, onEviction) == c
    ensures n == |variables| ==> AdmissionOutcome(c, variables, None, counts, capacity, onEviction) == c
  {
    if n > 0 {
      NoEstimatesAdmitNothing(c, variables, n - 1, counts, capacity, onEviction);
    }
  }

  /** The slots whose resident equals no resident of the snapshot, ascending. */
  function NewResidents(d: map<nat, Variable>, oldResidents: map<nat, Variable>): map<nat, Variable>
  {
    map s | s in d && !Resident(oldResidents, d[s]) :: d[s]
  }

  function NewSlots(d: map<nat, Variable>, oldResidents: map<nat, Variable>, n: nat): seq<nat>
  {
    AscendingKeys(NewResidents(d, oldResidents), n)
  }

  /** The load line of a newly admitted resident: `<slot address> = <variable>;`. */
  function LoadLine(indent: nat, slot: nat, v: Variable, render: Renderer, lineEnd: string): string
  {
    Spaces(indent) + SlotAddress(slot) + " = " + v.ToString(render) + lineEnd
  }

  /**
   * A load line is the indent, the slot's address, ` = `, the variable as
   * code (a scalar as its bare name), and the line end.
   */
  lemma LoadLineParts(indent: nat, slot: nat, v: Variable, render: Renderer, lineEnd: string)
    ensures |LoadLine(indent, slot, v, render, lineEnd)| == indent + |SlotAddress(slot)| + 3 + |v.ToString(render)| + |lineEnd|
    ensures LoadLine(indent, slot, v, render, lineEnd)[..indent] == Spaces(indent)
    ensures LoadLine(indent, slot, v, render, lineEnd)[indent..indent + |SlotAddress(slot)|] == SlotAddress(slot)
    ensures LoadLine(indent, slot, v, render, lineEnd)[indent + |SlotAddress(slot)|..indent + |SlotAddress(slot)| + 3 + |v.ToString(render)|]
      == " = " + v.ToString(render)
    ensures LoadLine(indent, slot, v, render, lineEnd)[indent + |SlotAddress(slot)| + 3 + |v.ToString(render)|..] == lineEnd
    ensures v.index.None? ==> LoadLine(indent, slot, v, render, lineEnd) == Spaces(indent) + SlotAddress(slot) + " = " + v.base + lineEnd
  {
    var head := Spaces(indent) + SlotAddress(slot);
    var body := " = " + v.ToString(render);
    assert LoadLine(indent, slot, v, render, lineEnd) == head + body + lineEnd;
    assert head[..indent] == Spaces(indent) && head[indent..] == SlotAddress(slot);
    assert (head + body + lineEnd)[..|head|] == head;
    assert (head + body + lineEnd)[|head|..|head| + |body|] == body;
    assert (head + body + lineEnd)[|head| + |body|..] == lineEnd;
  }

  function LoadLines(d: map<nat, Variable>, slots: seq<nat>, indent: nat, render: Renderer, lineEnd: string): seq<string>
    requires forall k :: 0 <= k < |slots| ==> slots[k] in d
  {
    seq(|slots|, k requires 0 <= k < |slots| => LoadLine(indent, slots[k], d[slots[k]], render, lineEnd))
  }

  /** Appending a slot appends its load line. */
  lemma LoadLinesSnoc(d: map<nat, Variable>, slots: seq<nat>, x: nat, indent: nat, render: Renderer, lineEnd: string)
    requires forall k :: 0 <= k < |slots| ==> slots[k] in d
    requires x in d
    ensures LoadLines(d, slots + [x], indent, render, lineEnd) == LoadLines(d, slots, indent, render, lineEnd) + [LoadLine(indent, x, d[x], render, lineEnd)]
  {
  }

  function EvictionEvents(d: map<nat, Variable>, slots: seq<nat>): seq<Eviction>
    requires forall k :: 0 <= k < |slots| ==> slots[k] in d
  {
    if slots == [] then []
    else
      var last := slots[|slots| - 1];
      EvictionEvents(d, slots[..|slots| - 1]) + [Eviction(d[last], SlotAddress(last), last)]
  }

  /**
   * The lines a load point writes: one per slot whose resident is new, in
   * ascending slot order, each assigning the variable to its slot address.
   */
  lemma {:induction false} LoadLinesExactlyNew(d: map<nat, Variable>, oldResidents: map<nat, Variable>, n: nat, indent: nat, render: Renderer, lineEnd: string)
    requires forall s :: s in d ==> s < n
    ensures forall s :: s in NewSlots(d, oldResidents, n) <==> s in d && !Resident(oldResidents, d[s])
    ensures forall p, q :: 0 <= p < q < |NewSlots(d, oldResidents, n)| ==> NewSlots(d, oldResidents, n)[p] < NewSlots(d, oldResidents, n)[q]
    ensures |LoadLines(d, NewSlots(d, oldResidents, n), indent, render, lineEnd)| == |NewSlots(d, oldResidents, n)|
    ensures forall k :: 0 <= k < |NewSlots(d, oldResidents, n)| ==>
      LoadLines(d, NewSlots(d, oldResidents, n), indent, render, lineEnd)[k]
        == LoadLine(indent, NewSlots(d, oldResidents, n)[k], d[NewSlots(d, oldResidents, n)[k]], render, lineEnd)
  {
    AscendingKeysSpec(NewResidents(d, oldResidents), n);
  }

  lemma ResidentAfterGrowth(d: map<nat, Variable>, d': map<nat, Variable>, v: Variable)
    requires Resident(d, v)
    requires forall s :: s in d ==> s in d' && d'[s] == d[s]
    ensures Resident(d', v)
  {
    var t :| t in d && v.Eq(d[t]);
    assert t in d' && v.Eq(d'[t]);
  }

  /** Each of the first k candidates is resident in d, or d fills every slot. */
  predicate Covered(d: map<nat, Variable>, cands: seq<(Variable, Option<int>)>, k: nat, capacity: nat)
    requires k <= |cands|
  {
    forall j :: 0 <= j < k ==> Resident(d, cands[j].0) || |d| == capacity
  }

  /**
   * Growing the residents, within the capacity, keeps every one of the first
   * k candidates resident or the slots full, and adds candidate k when it
   * was resident before or the growth left it resident or the slots full.
   */
  lemma CoverageKept(d: map<nat, Variable>, d': map<nat, Variable>, cands: seq<(Variable, Option<int>)>, k: nat, capacity: nat)
    requires k < |cands|
    requires forall s :: s in d ==> s in d' && d'[s] == d[s]
    requires |d| <= |d'| <= capacity
    requires Covered(d, cands, k, capacity)
    requires Resident(d, cands[k].0) || Resident(d', cands[k].0) || |d'| == capacity
    ensures Covered(d', cands, k + 1, capacity)
  {
    forall j | 0 <= j <= k && Resident(d, cands[j].0)
      ensures Resident(d', cands[j].0)
    {
      ResidentAfterGrowth(d, d', cands[j].0);
    }
  }

  /** Marks that agree with m0 everywhere except s, which is unmarked, are m0 with s unmarked. */
  lemma UnmarkedAt(marks: seq<bool>, m0: seq<bool>, s: nat)
    requires s < |m0| && |marks| == |m0|
    requires forall t :: 0 <= t < |m0| ==> marks[t] == (t != s && m0[t])
    ensures marks == m0[s := false]
  {
  }

  /** No two residents have the same base name and index. */
  predicate DistinctKeys(d: map<nat, Variable>)
  {
    forall s, t :: s in d && t in d && s != t ==> !SameKey(d[s], d[t])
  }

  /** A variable equal to no resident stays so when residents only leave. */
  lemma NotResidentAfterShrink(d: map<nat, Variable>, d': map<nat, Variable>, v: Variable)
    requires !Resident(d, v)
    requires forall s :: s in d' ==> s in d && d'[s] == d[s]
    ensures !Resident(d', v)
  {
    forall s | s in d'
      ensures !v.Eq(d'[s])
    {
      assert d'[s] == d[s];
    }
  }

  /**
   * Admitting a variable that is not resident keeps the slot bookkeeping and
   * the distinct keys, and adds exactly one resident, v, keeping the others.
   */
  lemma AdmitIntoKeeps(c: Snapshot, v: Variable, capacity: nat)
    requires Bookkeeping(c.residents, c.free, capacity) && c.free != [] && !Resident(c.residents, v)
    ensures Bookkeeping(AdmitInto(c, v).residents, AdmitInto(c, v).free, capacity)
    ensures |AdmitInto(c, v).residents| == |c.residents| + 1 && Resident(AdmitInto(c, v).residents, v)
    ensures forall s :: s in c.residents ==> s in AdmitInto(c, v).residents && AdmitInto(c, v).residents[s] == c.residents[s]
    ensures DistinctKeys(c.residents) ==> DistinctKeys(AdmitInto(c, v).residents)
  {
    if v in c.residents.Values {
      ResidentObject(c.residents, v);
    }
    BookkeepingAfterAdmission(c.residents, c.free, capacity, v);
    var p := c.free[|c.free| - 1];
    var d := AdmitInto(c, v).residents;
    assert d[p] == v && v.Eq(v);
    if DistinctKeys(c.residents) {
      forall s, t | s in d && t in d && s != t
        ensures !SameKey(d[s], d[t])
      {
        if s == p {
          assert !v.Eq(c.residents[t]);
        } else if t == p {
          assert !v.Eq(c.residents[s]);
        }
      }
    }
  }

  /** Evicting a resident keeps the slot bookkeeping and the distinct keys and removes one resident. */
  lemma EvictSlotKeeps(c: Snapshot, s: nat, capacity: nat, onEviction: bool)
    requires Bookkeeping(c.residents, c.free, capacity) && s in c.residents && s < |c.marks|
    ensures Bookkeeping(EvictSlot(c, s, onEviction).residents, EvictSlot(c, s, onEviction).free, capacity)
    ensures |EvictSlot(c, s, onEviction).residents| == |c.residents| - 1
    ensures forall t :: t in EvictSlot(c, s, onEviction).residents ==> t in c.residents && EvictSlot(c, s, onEviction).residents[t] == c.residents[t]
    ensures DistinctKeys(c.residents) ==> DistinctKeys(EvictSlot(c, s, onEviction).residents)
  {
    BookkeepingAfterEviction(c.residents, c.free, capacity, s);
  }

  /**
   * Evicting for an admission keeps the bookkeeping and the distinct keys and
   * keeps every remaining resident where it was; it removes at most one
   * resident, and when it does, a slot is free afterwards.
   */
  lemma EvictIfFullKeeps(c: Snapshot, counts: map<nat, nat>, capacity: nat, onEviction: bool)
    requires Bookkeeping(c.residents, c.free, capacity)
    ensures Bookkeeping(EvictIfFull(c, counts, capacity, onEviction).residents, EvictIfFull(c, counts, capacity, onEviction).free, capacity)
    ensures forall s :: s in EvictIfFull(c, counts, capacity, onEviction).residents ==>
      s in c.residents && EvictIfFull(c, counts, capacity, onEviction).residents[s] == c.residents[s]
    ensures |EvictIfFull(c, counts, capacity, onEviction).residents| + 1 >= |c.residents|
    ensures |EvictIfFull(c, counts, capacity, onEviction).residents| < |c.residents| ==>
      |EvictIfFull(c, counts, capacity, onEviction).residents| < capacity && EvictIfFull(c, counts, capacity, onEviction).free != []
    ensures DistinctKeys(c.residents) ==> DistinctKeys(EvictIfFull(c, counts, capacity, onEviction).residents)
  {
    if |c.residents| >= capacity && CountTrue(c.marks) > 0 && LongestGap(c.residents, c.marks, counts, |c.marks|).Some? {
      var s := LongestGap(c.residents, c.marks, counts, |c.marks|).value;
      EvictSlotKeeps(c, s, capacity, onEviction);
    }
  }

  /**
   * A candidate that is not resident and whose usage is above one is
   * admitted when a slot is free or some resident is marked: it takes the
   * last free slot of the state after the eviction, if any.
   */
  lemma FirstStepAdmits(c: Snapshot, cand: (Variable, Option<int>), counts: map<nat, nat>, capacity: nat, onEviction: bool)
    requires Bookkeeping(c.residents, c.free, capacity)
    requires forall t :: 0 <= t < |c.marks| && c.marks[t] ==> t in c.residents && t in counts
    requires !Resident(c.residents, cand.0) && !SkipAdmission(cand.1)
    requires |c.residents| < capacity || CountTrue(c.marks) > 0
    ensures EvictIfFull(c, counts, capacity, onEviction).free != []
    ensures FirstStep(c, cand, counts, capacity, onEviction) == AdmitInto(EvictIfFull(c, counts, capacity, onEviction), cand.0)
    ensures Resident(FirstStep(c, cand, counts, capacity, onEviction).residents, cand.0)
  {
    var e := EvictIfFull(c, counts, capacity, onEviction);
    EvictIfFullChoosesLongest(c, counts, capacity, onEviction);
    EvictIfFullKeeps(c, counts, capacity, onEviction);
    AdmitIntoKeeps(e, cand.0, capacity) by {
      NotResidentAfterShrink(c.residents, e.residents, cand.0);
    }
  }

  /**
   * One step of the first pass keeps the bookkeeping and the distinct keys
   * and never shrinks the residents: an eviction happens only when the
   * slots are full, and the slot it frees is taken at once.
   */
  lemma FirstStepKeeps(c: Snapshot, cand: (Variable, Option<int>), counts: map<nat, nat>, capacity: nat, onEviction: bool)
    requires Bookkeeping(c.residents, c.free, capacity)
    ensures Bookkeeping(FirstStep(c, cand, counts, capacity, onEviction).residents, FirstStep(c, cand, counts, capacity, onEviction).free, capacity)
    ensures |FirstStep(c, cand, counts, capacity, onEviction).residents| >= |c.residents|
    ensures DistinctKeys(c.residents) ==> DistinctKeys(FirstStep(c, cand, counts, capacity, onEviction).residents)
  {
    var v := cand.0;
    if !Resident(c.residents, v) && !SkipAdmission(cand.1) {
      var e := EvictIfFull(c, counts, capacity, onEviction);
      EvictIfFullKeeps(c, counts, capacity, onEviction);
      NotResidentAfterShrink(c.residents, e.residents, v);
      if |e.residents| < capacity && e.free != [] {
        AdmitIntoKeeps(e, v, capacity);
      }
    }
  }

  /** The first pass keeps the bookkeeping and the distinct keys, and never shrinks the residents. */
  lemma {:induction false} FirstPassKeeps(c: Snapshot, cands: seq<(Variable, Option<int>)>, n: nat, counts: map<nat, nat>, capacity: nat, onEviction: bool)
    requires n <= |cands| && Bookkeeping(c.residents, c.free, capacity)
    ensures Bookkeeping(FirstPass(c, cands, n, counts, capacity, onEviction).residents, FirstPass(c, cands, n, counts, capacity, onEviction).free, capacity)
    ensures |FirstPass(c, cands, n, counts, capacity, onEviction).residents| >= |c.residents|
    ensures DistinctKeys(c.residents) ==> DistinctKeys(FirstPass(c, cands, n, counts, capacity, onEviction).residents)
  {
    if n > 0 {
      FirstPassKeeps(c, cands, n - 1, counts, capacity, onEviction);
      FirstStepKeeps(FirstPass(c, cands, n - 1, counts, capacity, onEviction), cands[n - 1], counts, capacity, onEviction);
    }
  }

  /** A first pass whose candidates are all resident or not worth a slot changes nothing. */
  lemma {:induction false} FirstPassQuiet(c: Snapshot, cands: seq<(Variable, Option<int>)>, n: nat, counts: map<nat, nat>, capacity: nat, onEviction: bool)
    requires n <= |cands|
    requires forall j :: 0 <= j < n ==> Resident(c.residents, cands[j].0) || SkipAdmission(cands[j].1)
    ensures FirstPass(c, cands, n, counts, capacity, onEviction) == c
  {
    if n > 0 {
      FirstPassQuiet(c, cands, n - 1, counts, capacity, onEviction);
    }
  }

  /**
   * One step of the second pass keeps the bookkeeping, the distinct keys,
   * the marks, the callback log and every resident, and leaves its candidate
   * resident unless the slots are full.
   */
  lemma SecondStepKeeps(c: Snapshot, v: Variable, capacity: nat)
    requires Bookkeeping(c.residents, c.free, capacity)
    ensures Bookkeeping(SecondStep(c, v, capacity).residents, SecondStep(c, v, capacity).free, capacity)
    ensures SecondStep(c, v, capacity).marks == c.marks && SecondStep(c, v, capacity).log == c.log
    ensures forall s :: s in c.residents ==> s in SecondStep(c, v, capacity).residents && SecondStep(c, v, capacity).residents[s] == c.residents[s]
    ensures |SecondStep(c, v, capacity).residents| >= |c.residents|
    ensures Resident(c.residents, v) || Resident(SecondStep(c, v, capacity).residents, v) || |SecondStep(c, v, capacity).residents| == capacity
    ensures DistinctKeys(c.residents) ==> DistinctKeys(SecondStep(c, v, capacity).residents)
  {
    if !Resident(c.residents, v) && |c.residents| < capacity && c.free != [] {
      AdmitIntoKeeps(c, v, capacity);
    }
  }

  /**
   * The second pass keeps the bookkeeping, the distinct keys, the marks and
   * the callback log, and keeps every resident where it is.
   */
  lemma {:induction false} SecondPassKeeps(c: Snapshot, cands: seq<(Variable, Option<int>)>, n: nat, capacity: nat)
    requires n <= |cands| && Bookkeeping(c.residents, c.free, capacity)
    ensures Bookkeeping(SecondPass(c, cands, n, capacity).residents, SecondPass(c, cands, n, capacity).free, capacity)
    ensures SecondPass(c, cands, n, capacity).marks == c.marks && SecondPass(c, cands, n, capacity).log == c.log
    ensures forall s :: s in c.residents ==> s in SecondPass(c, cands, n, capacity).residents && SecondPass(c, cands, n, capacity).residents[s] == c.residents[s]
    ensures |SecondPass(c, cands, n, capacity).residents| >= |c.residents|
    ensures DistinctKeys(c.residents) ==> DistinctKeys(SecondPass(c, cands, n, capacity).residents)
  {
    if n > 0 {
      SecondPassKeeps(c, cands, n - 1, capacity);
      SecondStepKeeps(SecondPass(c, cands, n - 1, capacity), cands[n - 1].0, capacity);
    }
  }

  /**
   * The part of the bookkeeping the second pass's coverage rests on: every
   * slot is resident or free, free slots are distinct and hold no resident.
   */
  ghost predicate Room(c: Snapshot, capacity: nat)
  {
    && |c.residents| + |c.free| == capacity
    && (forall i :: 0 <= i < |c.free| ==> c.free[i] !in c.residents)
    && (forall i, j :: 0 <= i < j < |c.free| ==> c.free[i] != c.free[j])
  }

  /** One step of the second pass keeps the room and extends the candidates covered by one. */
  lemma SecondStepCovers(c: Snapshot, cands: seq<(Variable, Option<int>)>, k: nat, capacity: nat)
    requires k < |cands| && Room(c, capacity)
    requires Covered(c.residents, cands, k, capacity)
    ensures Room(SecondStep(c, cands[k].0, capacity), capacity)
    ensures Covered(SecondStep(c, cands[k].0, capacity).residents, cands, k + 1, capacity)
  {
    var r := SecondStep(c, cands[k].0, capacity);
    if r != c {
      var p := c.free[|c.free| - 1];
      assert p !in c.residents;
      assert |r.residents| == |c.residents| + 1;
      assert r.residents[p] == cands[k].0;
      assert cands[k].0.Eq(r.residents[p]);
    }
    CoverageKept(c.residents, r.residents, cands, k, capacity);
  }

  /** After the second pass, each candidate it has seen is resident unless the slots are full. */
  lemma {:induction false} SecondPassCovers(c: Snapshot, cands: seq<(Variable, Option<int>)>, n: nat, capacity: nat)
    requires n <= |cands| && Room(c, capacity)
    ensures Room(SecondPass(c, cands, n, capacity), capacity)
    ensures Covered(SecondPass(c, cands, n, capacity).residents, cands, n, capacity)
  {
    if n > 0 {
      SecondPassCovers(c, cands, n - 1, capacity);
      SecondStepCovers(SecondPass(c, cands, n - 1, capacity), cands, n - 1, capacity);
    }
  }

  /** A second pass whose candidates are all resident changes nothing. */
  lemma {:induction false} SecondPassQuiet(c: Snapshot, cands: seq<(Variable, Option<int>)>, n: nat, capacity: nat)
    requires n <= |cands|
    requires forall j :: 0 <= j < n ==> Resident(c.residents, cands[j].0)
    ensures SecondPass(c, cands, n, capacity) == c
  {
    if n > 0 {
      SecondPassQuiet(c, cands, n - 1, capacity);
    }
  }

  /**
   * What admission at a load point keeps and achieves: the bookkeeping, the
   * distinct keys, never fewer residents; nothing changes when every
   * requested variable is resident or there are no estimates; and with
   * non-empty estimates every requested variable ends resident unless the
   * slots are full.
   */
  lemma AdmissionOutcomeKeeps(c: Snapshot, variables: seq<Variable>, estimatedUsage: Option<seq<int>>,
                              counts: map<nat, nat>, capacity: nat, onEviction: bool)
    requires estimatedUsage.Some? ==> |estimatedUsage.value| >= |variables|
    requires Bookkeeping(c.residents, c.free, capacity)
    ensures Bookkeeping(AdmissionOutcome(c, variables, estimatedUsage, counts, capacity, onEviction).residents,
                        AdmissionOutcome(c, variables, estimatedUsage, counts, capacity, onEviction).free, capacity)
    ensures |AdmissionOutcome(c, variables, estimatedUsage, counts, capacity, onEviction).residents| >= |c.residents|
    ensures DistinctKeys(c.residents) ==> DistinctKeys(AdmissionOutcome(c, variables, estimatedUsage, counts, capacity, onEviction).residents)
    ensures (forall i :: 0 <= i < |variables| ==> Resident(c.residents, variables[i])) || estimatedUsage.None? ==>
      AdmissionOutcome(c, variables, estimatedUsage, counts, capacity, onEviction) == c
    ensures estimatedUsage.Some? && |estimatedUsage.value| > 0 ==>
      forall i :: 0 <= i < |variables| ==>
        Resident(AdmissionOutcome(c, variables, estimatedUsage, counts, capacity, onEviction).residents, variables[i])
        || |AdmissionOutcome(c, variables, estimatedUsage, counts, capacity, onEviction).residents| == capacity
  {
    var cands := Candidates(variables, estimatedUsage);
    var first := FirstPass(c, cands, |cands|, counts, capacity, onEviction);
    FirstPassKeeps(c, cands, |cands|, counts, capacity, onEviction);
    if estimatedUsage.None? {
      NoEstimatesAdmitNothing(c, variables, |variables|, counts, capacity, onEviction);
    }
    if forall i :: 0 <= i < |variables| ==> Resident(c.residents, variables[i]) {
      forall k | 0 <= k < |cands|
        ensures Resident(c.residents, cands[k].0)
      {
        var i :| 0 <= i < |variables| && variables[i] == cands[k].0;
      }
      FirstPassQuiet(c, cands, |cands|, counts, capacity, onEviction);
      SecondPassQuiet(first, cands, |cands|, capacity);
    }
    if estimatedUsage.Some? && |estimatedUsage.value| > 0 {
      SecondPassKeeps(first, cands, |cands|, capacity);
      assert Room(first, capacity);
      SecondPassCovers(first, cands, |cands|, capacity);
      CandidatesCoverRequests(variables, estimatedUsage);
      var r := SecondPass(first, cands, |cands|, capacity);
      forall i | 0 <= i < |variables|
        ensures Resident(r.residents, variables[i]) || |r.residents| == capacity
      {
        var k :| 0 <= k < |cands| && cands[k].0 == variables[i];
      }
    }
  }

  /** The idle count of each resident. */
  function IdleCounts(d: map<nat, Variable>): (counts: map<nat, nat>)
    reads d.Values
    ensures counts.Keys == d.Keys
    ensures forall s :: s in d ==> counts[s] == d[s].lastUseCount
  {
    map s | s in d :: d[s].lastUseCount
  }

  /** counts gives the idle count of every resident of d. */
  ghost predicate CountsOf(d: map<nat, Variable>, counts: map<nat, nat>)
    reads d.Values
  {
    forall s :: s in d ==> s in counts && counts[s] == d[s].lastUseCount
  }

  /**
   * The eviction marks after the marking step of a load point, from the
   * residents d with idle counts counts and the marks m0 before the step:
   * a requested resident is unmarked, an unrequested one idle for two load
   * points is marked, any other resident keeps its mark, and a slot without
   * a resident is unmarked.
   */
  function SelfEvictionMarks(d: map<nat, Variable>, counts: map<nat, nat>, m0: seq<bool>, variables: seq<Variable>): (m: seq<bool>)
    requires counts.Keys == d.Keys
    ensures |m| == |m0|
    ensures forall s :: 0 <= s < |m| && s in d && InList(d[s], variables) ==> !m[s]
    ensures forall s :: 0 <= s < |m| && s in d && !InList(d[s], variables) && counts[s] >= 2 ==> m[s]
    ensures forall s :: 0 <= s < |m| && s in d && !InList(d[s], variables) && counts[s] < 2 ==> m[s] == m0[s]
    ensures forall s :: 0 <= s < |m| && s !in d ==> !m[s]
  {
    seq(|m0|, s requires 0 <= s < |m0| => s in d && Marking(counts[s], InList(d[s], variables), m0[s]))
  }

  /** Per resident slot: whether its variable equals none of the residents in oldResidents. */
  function NewlyLoaded(d: map<nat, Variable>, oldResidents: map<nat, Variable>): (r: map<nat, bool>)
    ensures r.Keys == d.Keys
  {
    map s | s in d :: !Resident(oldResidents, d[s])
  }

  /**
   * The dictionary `load_into_shared` returns reports a slot as new exactly
   * when the slot gets a load line, and every resident is unchanged where
   * the slots did not change.
   */
  lemma NewlyLoadedAreLoaded(d: map<nat, Variable>, oldResidents: map<nat, Variable>, n: nat)
    requires forall s :: s in d ==> s < n
    ensures forall s :: s in d ==> (NewlyLoaded(d, oldResidents)[s] <==> s in NewSlots(d, oldResidents, n))
    ensures forall s :: s in d && s in oldResidents && d[s] == oldResidents[s] ==> !NewlyLoaded(d, oldResidents)[s]
  {
    AscendingKeysSpec(NewResidents(d, oldResidents), n);
    forall s | s in d && s in oldResidents && d[s] == oldResidents[s]
      ensures Resident(oldResidents, d[s])
    {
      ResidentObject(oldResidents, d[s]);
    }
  }

  /** A load point that changes no resident writes no load line and reports nothing as new. */
  lemma NothingNewWhenUnchanged(d: map<nat, Variable>, n: nat, indent: nat, render: Renderer, lineEnd: string)
    ensures NewSlots(d, d, n) == []
    ensures LoadLines(d, NewSlots(d, d, n), indent, render, lineEnd) == []
    ensures forall s :: s in NewlyLoaded(d, d) ==> !NewlyLoaded(d, d)[s]
  {
    forall s | s in d
      ensures Resident(d, d[s])
    {
      ResidentObject(d, d[s]);
    }
    assert NewResidents(d, d) == map[];
    AscendingKeysOfEmpty(NewResidents(d, d), n);

  }

  /** The requested variables as a set. */
  function Elements(vs: seq<Variable>): (r: set<Variable>)
    ensures forall i :: 0 <= i < |vs| ==> vs[i] in r
  {
    if vs == [] then {} else Elements(vs[..|vs| - 1]) + {vs[|vs| - 1]}
  }

  lemma {:induction false} ElementsOnly(vs: seq<Variable>)
    ensures forall v :: v in Elements(vs) ==> v in vs
  {
    if vs != [] {
      ElementsOnly(vs[..|vs| - 1]);
    }
  }

  /** The marking step never marks a resident that is itself among the requested variables. */
  lemma MarksSpareRequested(d: map<nat, Variable>, m: seq<bool>, variables: seq<Variable>)
    requires forall s :: 0 <= s < |m| && m[s] ==> s in d && !InList(d[s], variables)
    ensures forall s :: s in d && s < |m| && m[s] ==> d[s] !in Elements(variables)
  {
    forall s | s in d && s < |m| && m[s]
      ensures d[s] !in Elements(variables)
    {
      ElementsOnly(variables);
      EqProperties(d[s], d[s]);
      assert forall i :: 0 <= i < |variables| ==> variables[i] != d[s];
    }
  }


  class SharedMemoryManager {
    const blocksPerSm: nat
    const numThreads: nat
    /** `shared_per_thread`: the number of slots. */
    const capacity: nat
    const render: Renderer
    /** `utils.line_end['cuda']`. */
    const lineEnd: string
    /** `shared_dict`: slot index to resident variable. */
    var sharedDict: map<nat, Variable>
    /** `shared_indexes`: the free slots, used as a stack. */
    var sharedIndexes: seq<nat>
    var evictionMarking: array<bool>
    /** Whether an eviction callback is installed. */
    var onEviction: bool
    /** The calls made to the eviction callback, oldest first. */
    var evictions: seq<Eviction>

    ghost predicate Valid()
      reads this, evictionMarking
    {
      && evictionMarking.Length == capacity
      && Bookkeeping(sharedDict, sharedIndexes, capacity)
      && (forall s :: 0 <= s < capacity && evictionMarking[s] ==> s in sharedDict)
    }

    /** The residents, free stack, marks and callback log as one value. */
    ghost function State(): Snapshot
      reads this, evictionMarking
    {
      Snapshot(sharedDict, sharedIndexes, evictionMarking[..], evictions)
    }

    /** No two slots hold variables with the same base name and index. */
    predicate NoDuplicates()
      reads this
    {
      DistinctKeys(sharedDict)
    }

    /** Every slot is either resident or free, never both. */
    lemma SlotsPartitioned()
      requires Valid()
      ensures |sharedDict| <= capacity
      ensures forall s :: 0 <= s < capacity ==> (s in sharedDict <==> s !in sharedIndexes)
    {
      EverySlotResidentOrFree(capacity, sharedDict.Keys, sharedIndexes);
    }

    /** The state `reset` installs: no residents, every slot free, nothing marked. */
    constructor (sharedMemorySize: nat, blocksPerSm: nat, numThreads: nat, render: Renderer, lineEnd: string)
      requires blocksPerSm > 0 && numThreads > 0
      ensures Valid() && fresh(evictionMarking)
      ensures capacity == Capacity(sharedMemorySize, blocksPerSm, numThreads)
      ensures sharedDict == map[] && sharedIndexes == Range(capacity)
      ensures forall s :: 0 <= s < capacity ==> !evictionMarking[s]
      ensures !onEviction && evictions == []
      ensures this.render == render && this.lineEnd == lineEnd
    {
      this.blocksPerSm := blocksPerSm;
      this.numThreads := numThreads;
      capacity := Capacity(sharedMemorySize, blocksPerSm, numThreads);
      this.render := render;
      this.lineEnd := lineEnd;
      sharedDict := map[];
      sharedIndexes := Range(Capacity(sharedMemorySize, blocksPerSm, numThreads));
      evictionMarking := new bool[Capacity(sharedMemorySize, blocksPerSm, numThreads)](_ => false);
      onEviction := false;
      evictions := [];
    }

    method Reset()
      modifies this
      ensures Valid() && fresh(evictionMarking)
      ensures sharedDict == map[] && sharedIndexes == Range(capacity)
      ensures forall s :: 0 <= s < capacity ==> !evictionMarking[s]
      ensures !onEviction && evictions == old(evictions)
    {
      sharedDict := map[];
      sharedIndexes := Range(capacity);
      evictionMarking := new bool[capacity](_ => false);
      onEviction := false;
    }

    method SetOnEviction(installed: bool)
      modifies this
      ensures onEviction == installed
      ensures sharedDict == old(sharedDict) && sharedIndexes == old(sharedIndexes)
      ensures evictionMarking == old(evictionMarking) && evictions == old(evictions)
      ensures old(Valid()) ==> Valid()
    {
      onEviction := installed;
    }

    /** `write_init`: declares the dynamic shared-memory array. */
    function InitLine(indent: nat): (line: string)
      ensures |line| == indent + |InitDeclaration()| + |lineEnd|
      ensures line[..indent] == Spaces(indent)
      ensures line[indent..] == InitDeclaration() + lineEnd
    {
      Spaces(indent) + InitDeclaration() + lineEnd
    }

    /** The state after evicting slot s from residents d0, free stack f0, marks m0 and log e0. */
    ghost predicate EvictedFrom(s: nat, d0: map<nat, Variable>, f0: seq<nat>, m0: seq<bool>, e0: seq<Eviction>)
      reads this, evictionMarking
    {
      && s in d0 && s < |m0| && evictionMarking.Length == |m0|
      && sharedDict == d0 - {s}
      && sharedIndexes == f0 + [s]
      && (forall t :: 0 <= t < |m0| ==> evictionMarking[t] == (t != s && m0[t]))
      && evictions == e0 + (if onEviction then [Eviction(d0[s], SlotAddress(s), s)] else [])
    }

    /** A state evicted from st at slot s is st after `EvictSlot`. */
    lemma EvictedState(s: nat, st: Snapshot)
      requires EvictedFrom(s, st.residents, st.free, st.marks, st.log)
      ensures State() == EvictSlot(st, s, onEviction)
    {
      UnmarkedAt(evictionMarking[..], st.marks, s);
    }

    /** `evict`; a slot that is not resident raises KeyError and changes nothing. */
    method Evict(slot: nat) returns (ok: bool)
      requires Valid()
      modifies this, evictionMarking
      ensures Valid() && evictionMarking == old(evictionMarking) && onEviction == old(onEviction)
      ensures ok == (slot in old(sharedDict))
      ensures ok ==> EvictedFrom(slot, old(sharedDict), old(sharedIndexes), old(evictionMarking[..]), old(evictions))
      ensures !ok ==> sharedDict == old(sharedDict) && sharedIndexes == old(sharedIndexes) && evictions == old(evictions)
      ensures !ok ==> forall t :: 0 <= t < capacity ==> evictionMarking[t] == old(evictionMarking[t])
    {
      if slot !in sharedDict {
        return false;
      }
      var v := sharedDict[slot];
      BookkeepingAfterEviction(sharedDict, sharedIndexes, capacity, slot);
      sharedDict := sharedDict - {slot};
      sharedIndexes := sharedIndexes + [slot];
      evictionMarking[slot] := false;
      if onEviction {
        evictions := evictions + [Eviction(v, SlotAddress(slot), slot)];
      }
      ok := true;
    }

    /**
     * `add_to_dictionary`: pops the last free slot and makes val its resident;
     * with no free slot the assertion fails and nothing changes.
     */
    method AddToDictionary(val: Variable) returns (ok: bool)
      requires Valid() && val !in sharedDict.Values
      modifies this
      ensures Valid() && evictionMarking == old(evictionMarking)
      ensures onEviction == old(onEviction) && evictions == old(evictions)
      ensures ok == (old(sharedIndexes) != [])
      ensures ok ==> var p := old(sharedIndexes)[|old(sharedIndexes)| - 1];
        && p !in old(sharedDict)
        && sharedDict == old(sharedDict)[p := val]
        && sharedIndexes == old(sharedIndexes)[..|old(sharedIndexes)| - 1]
      ensures !ok ==> sharedDict == old(sharedDict) && sharedIndexes == old(sharedIndexes)
      ensures old(NoDuplicates()) && !Resident(old(sharedDict), val) ==> NoDuplicates()
    {
      if sharedIndexes == [] {
        return false;
      }
      var p := sharedIndexes[|sharedIndexes| - 1];
      BookkeepingAfterAdmission(sharedDict, sharedIndexes, capacity, val);
      sharedIndexes := sharedIndexes[..|sharedIndexes| - 1];
      sharedDict := sharedDict[p := val];
      ok := true;
      if old(NoDuplicates()) && !Resident(old(sharedDict), val) {
        forall s, t | s in sharedDict && t in sharedDict && s != t
          ensures !SameKey(sharedDict[s], sharedDict[t])
        {
          if s == p {
            assert !val.Eq(old(sharedDict)[t]);
          } else if t == p {
            assert !val.Eq(old(sharedDict)[s]);
          }
        }
      }
    }

    /**
     * s is the marked resident with the greatest idle count, the lowest slot
     * among equals (Python's `max` keeps the first maximum it meets).
     */
    ghost predicate IsLongestGap(s: nat)
      reads this, evictionMarking, sharedDict.Values
    {
      && s in sharedDict && s < evictionMarking.Length && evictionMarking[s]
      && (forall t :: t in sharedDict && t < evictionMarking.Length && evictionMarking[t] ==>
            sharedDict[t].lastUseCount <= sharedDict[s].lastUseCount)
      && (forall t :: t in sharedDict && t < s && evictionMarking[t] ==>
            sharedDict[t].lastUseCount < sharedDict[s].lastUseCount)
    }

    /** The choice of `evict_longest_gap`: found is false when no slot is marked. */
    method LongestGapSlot() returns (found: bool, slot: nat)
      requires Valid()
      ensures found <==> exists t :: 0 <= t < capacity && evictionMarking[t]
      ensures found ==> IsLongestGap(slot)
    {
      found, slot := false, 0;
      var t := 0;
      while t < capacity
        invariant 0 <= t <= capacity
        invariant !found ==> forall u :: 0 <= u < t ==> !evictionMarking[u]
        invariant found ==> slot < t && slot in sharedDict && evictionMarking[slot]
        invariant found ==> forall u :: 0 <= u < t && u in sharedDict && evictionMarking[u] ==>
          sharedDict[u].lastUseCount <= sharedDict[slot].lastUseCount
        invariant found ==> forall u :: 0 <= u < slot && u in sharedDict && evictionMarking[u] ==>
          sharedDict[u].lastUseCount < sharedDict[slot].lastUseCount
      {
        if t in sharedDict && evictionMarking[t] {
          if !found || sharedDict[slot].lastUseCount < sharedDict[t].lastUseCount {
            found, slot := true, t;
          }
        }
        t := t + 1;
      }
    }

    /**
     * With counts giving the idle counts of the marked residents, the
     * longest gap is the one the ascending scan of the marks finds.
     */
    lemma LongestGapIsScan(counts: map<nat, nat>)
      requires Valid()
      requires forall t :: t in sharedDict && t < capacity && evictionMarking[t] ==> t in counts && counts[t] == sharedDict[t].lastUseCount
      ensures forall s: nat :: IsLongestGap(s) ==> LongestGap(sharedDict, evictionMarking[..], counts, capacity) == Some(s)
    {
      var m := evictionMarking[..];
      LongestGapSpec(sharedDict, m, counts, capacity);
      forall s: nat | IsLongestGap(s)
        ensures LongestGap(sharedDict, m, counts, capacity) == Some(s)
      {
        assert LongestAmong(sharedDict, m, counts, capacity, s);
        var r := LongestGap(sharedDict, m, counts, capacity);
        assert r.Some? by {
          assert s < capacity && s in sharedDict && m[s] && s in counts;
        }
        LongestAmongUnique(sharedDict, m, counts, capacity, r.value, s);
      }
    }

    /**
     * `evict_longest_gap`: with no residents it does nothing; with residents
     * but none marked, `max` of an empty sequence raises ValueError and nothing
     * changes; otherwise the longest-idle marked resident is evicted.
     */
    method EvictLongestGap() returns (raised: bool, ghost victim: Option<nat>)
      requires Valid()
      modifies this, evictionMarking
      ensures Valid() && evictionMarking == old(evictionMarking) && onEviction == old(onEviction)
      ensures raised <==> old(sharedDict) != map[] && forall t :: 0 <= t < capacity ==> !old(evictionMarking[t])
      ensures victim.Some? <==> old(sharedDict) != map[] && !raised
      ensures victim.None? ==> sharedDict == old(sharedDict) && sharedIndexes == old(sharedIndexes) && evictions == old(evictions)
      ensures victim.None? ==> forall t :: 0 <= t < capacity ==> evictionMarking[t] == old(evictionMarking[t])
      ensures victim.Some? ==> old(IsLongestGap(victim.value))
      ensures victim.Some? ==> EvictedFrom(victim.value, old(sharedDict), old(sharedIndexes), old(evictionMarking[..]), old(evictions))
    {
      raised, victim := false, None;
      if |sharedDict| > 0 {
        var found, ind := LongestGapSlot();
        if !found {
          raised := true;
          return;
        }
        var ok := Evict(ind);
        victim := Some(ind);
      }
    }

    /** The state after force-evicting, in ascending order, the slots below s of residents d0, free stack f0 and log e0. */
    ghost predicate ForcedBelow(s: nat, d0: map<nat, Variable>, f0: seq<nat>, e0: seq<Eviction>)
      reads this, evictionMarking
    {
      && Valid() && s <= capacity
      && (forall t :: t in sharedDict <==> t in d0 && t >= s)
      && (forall t :: t in sharedDict ==> sharedDict[t] == d0[t])
      && sharedIndexes == f0 + AscendingKeys(d0, s)
      && (forall t :: 0 <= t < s ==> !evictionMarking[t])
      && evictions == e0 + (if onEviction then EvictionEvents(d0, AscendingKeys(d0, s)) else [])
    }

    /** One step of `force_eviction`: slot s is evicted if it is resident. */
    method ForceEvictSlot(s: nat, ghost d0: map<nat, Variable>, ghost f0: seq<nat>, ghost e0: seq<Eviction>)
      requires ForcedBelow(s, d0, f0, e0) && s < capacity
      modifies this, evictionMarking
      ensures ForcedBelow(s + 1, d0, f0, e0)
      ensures evictionMarking == old(evictionMarking) && onEviction == old(onEviction)
    {
      ghost var keys, e1 := AscendingKeys(d0, s), evictions;
      if s in sharedDict {
        var ok := Evict(s);
        assert AscendingKeys(d0, s + 1) == keys + [s];
        assert (keys + [s])[..|keys|] == keys;
        ghost var event := Eviction(d0[s], SlotAddress(s), s);
        assert EvictionEvents(d0, keys + [s]) == EvictionEvents(d0, keys) + [event];
        assert evictions == e1 + (if onEviction then [event] else []);
      } else {
        assert s !in d0;
        assert AscendingKeys(d0, s + 1) == keys;
      }
    }

    /** `force_eviction`: evicts every resident, in ascending slot order. */
    method ForceEviction()
      requires Valid()
      modifies this, evictionMarking
      ensures Valid() && evictionMarking == old(evictionMarking) && onEviction == old(onEviction)
      ensures sharedDict == map[]
      ensures sharedIndexes == old(sharedIndexes) + AscendingKeys(old(sharedDict), capacity)
      ensures forall s :: 0 <= s < capacity ==> !evictionMarking[s]
      ensures evictions == old(evictions) +
        (if onEviction then EvictionEvents(old(sharedDict), AscendingKeys(old(sharedDict), capacity)) else [])
    {
      ghost var d0, f0, e0 := sharedDict, sharedIndexes, evictions;
      assert AscendingKeys(d0, 0) == [] && EvictionEvents(d0, []) == [];
      assert sharedIndexes == f0 + [];
      var s := 0;
      while s < capacity
        invariant 0 <= s <= capacity
        invariant ForcedBelow(s, d0, f0, e0)
        invariant evictionMarking == old(evictionMarking) && onEviction == old(onEviction)
      {
        ForceEvictSlot(s, d0, f0, e0);
        s := s + 1;
      }
      assert sharedDict.Keys == {};
    }

    /** `get_index`: the first slot, in ascending order, whose resident equals v (resident on the left). */
    function GetIndex(v: Variable): (r: Option<nat>)
      requires Valid()
      reads this, evictionMarking
      ensures r.Some? ==> r.value in sharedDict && sharedDict[r.value].Eq(v)
      ensures r.Some? ==> forall t :: t in sharedDict && t < r.value ==> !sharedDict[t].Eq(v)
      ensures r.None? ==> forall t :: t in sharedDict ==> !sharedDict[t].Eq(v)
    {
      FirstMatch(sharedDict, v.base, v.index, 0, capacity)
    }

    /**
     * `get_array`: the text for a reference. A resident that equals it is
     * marked as just used and its slot address returned; otherwise the
     * reference renders as usual and nothing changes.
     */
    method GetArray(lang: string, thevar: string, index: Option<int>) returns (r: string)
      requires Valid()
      modifies sharedDict.Values
      ensures var m := FirstMatch(sharedDict, thevar, index, 0, capacity);
        && (m.Some? ==> r == SlotAddress(m.value) && sharedDict[m.value].lastUseCount == 0)
        && (m.None? ==> r == Render(render, lang, thevar, index))
        && (m.None? ==> forall t :: t in sharedDict ==> !sharedDict[t].Matches(thevar, index))
        && (forall t :: t in sharedDict && m != Some(t) ==> sharedDict[t].lastUseCount == old(sharedDict[t].lastUseCount))
    {
      var v := new Variable(thevar, index, lang);
      var ind := GetIndex(v);
      if ind.Some? {
        sharedDict[ind.value].Reset();
        r := SlotAddress(ind.value);
      } else {
        r := v.ToString(render);
      }
    }

    /** `load_into_shared`, ageing step: every resident is one load point older. */
    method AgeResidents()
      requires Valid()
      modifies sharedDict.Values
      ensures forall s :: s in sharedDict ==> sharedDict[s].lastUseCount == old(sharedDict[s].lastUseCount) + 1
    {
      var s := 0;
      while s < capacity
        invariant 0 <= s <= capacity
        invariant forall t :: t in sharedDict ==>
          sharedDict[t].lastUseCount == old(sharedDict[t].lastUseCount) + (if t < s then 1 else 0)
      {
        if s in sharedDict {
          sharedDict[s].Update();
        }
        s := s + 1;
      }
    }

    /**
     * `load_into_shared`, marking step: a resident idle long enough and not
     * requested is marked, a requested one unmarked, any other keeps its mark.
     */
    method MarkSelfEvictions(variables: seq<Variable>)
      requires Valid()
      modifies evictionMarking
      ensures Valid()
      ensures evictionMarking[..] == SelfEvictionMarks(sharedDict, IdleCounts(sharedDict), old(evictionMarking[..]), variables)
      ensures forall t :: 0 <= t < capacity ==>
        evictionMarking[t] == (t in sharedDict && Marking(sharedDict[t].lastUseCount, InList(sharedDict[t], variables), old(evictionMarking[t])))
    {
      var s := 0;
      while s < capacity
        invariant 0 <= s <= capacity
        invariant Valid()
        invariant forall t :: 0 <= t < s ==>
          evictionMarking[t] == (t in sharedDict && Marking(sharedDict[t].lastUseCount, InList(sharedDict[t], variables), old(evictionMarking[t])))
        invariant forall t :: s <= t < capacity ==> evictionMarking[t] == old(evictionMarking[t])
      {
        if s in sharedDict {
          var val := sharedDict[s];
          if SelfEvictionStrategy(val.lastUseCount) && !InList(val, variables) {
            evictionMarking[s] := true;
          } else if InList(val, variables) {
            evictionMarking[s] := false;
          }
        }
        s := s + 1;
      }
      assert evictionMarking[..] == SelfEvictionMarks(sharedDict, IdleCounts(sharedDict), old(evictionMarking[..]), variables);
    }

    /** Admission's invariant over this manager's residents, marks and callback log. */
    ghost predicate AdmissionInvariant(d0: map<nat, Variable>, m3: seq<bool>, e0: seq<Eviction>, requested: set<Variable>)
      reads this, evictionMarking
    {
      Valid() && AdmissionKept(sharedDict, evictionMarking[..], evictions, onEviction, d0, m3, e0, requested, capacity)
    }

    /**
     * Makes room for an admission: the slots are full and something is
     * marked, so the longest-idle marked resident is evicted.
     */
    method EvictForAdmission(ghost d0: map<nat, Variable>, ghost m3: seq<bool>, ghost e0: seq<Eviction>, ghost requested: set<Variable>,
                             ghost counts: map<nat, nat>)
      requires AdmissionInvariant(d0, m3, e0, requested) && CountsOf(d0, counts)
      requires |sharedDict| >= capacity && CountTrue(evictionMarking[..]) > 0
      modifies this, evictionMarking
      ensures AdmissionInvariant(d0, m3, e0, requested)
      ensures old(LongestGap(sharedDict, evictionMarking[..], counts, capacity)).Some?
      ensures State() == EvictIfFull(old(State()), counts, capacity, onEviction)
      ensures evictionMarking == old(evictionMarking) && onEviction == old(onEviction)
      ensures |sharedDict| == capacity - 1
      ensures forall s :: s in sharedDict ==> s in old(sharedDict) && sharedDict[s] == old(sharedDict)[s]
    {
      var t :| 0 <= t < capacity && evictionMarking[..][t];
      assert evictionMarking[t];
      ghost var st := State();
      LongestGapIsScan(counts);
      var raised, victim := EvictLongestGap();
      var s := victim.value;
      EvictedState(s, st);
      AdmissionKeptByEviction(st.residents, st.marks, st.log, onEviction, d0, m3, e0, requested, capacity, s, evictionMarking[..]);
      EvictSlotKeeps(st, s, capacity, onEviction);
    }

    /** Admits a requested variable that is not resident into the last free slot. */
    method AdmitFree(v: Variable, ghost d0: map<nat, Variable>, ghost m3: seq<bool>, ghost e0: seq<Eviction>, ghost requested: set<Variable>)
      requires AdmissionInvariant(d0, m3, e0, requested)
      requires v in requested && !Resident(sharedDict, v) && |sharedDict| < capacity
      requires forall s :: s in d0 && s < |m3| && m3[s] ==> d0[s] !in requested
      modifies this
      ensures AdmissionInvariant(d0, m3, e0, requested)
      ensures evictionMarking == old(evictionMarking) && onEviction == old(onEviction) && evictions == old(evictions)
      ensures old(NoDuplicates()) ==> NoDuplicates()
      ensures Resident(sharedDict, v) && |sharedDict| == old(|sharedDict|) + 1
      ensures forall s :: s in old(sharedDict) ==> s in sharedDict && sharedDict[s] == old(sharedDict)[s]
      ensures old(sharedIndexes) != [] && State() == AdmitInto(old(State()), v)
    {
      ghost var st := State();
      assert sharedIndexes != [];
      ghost var p := sharedIndexes[|sharedIndexes| - 1];
      assert !st.marks[p];
      AdmitIntoKeeps(st, v, capacity);
      AdmissionKeptByAdmission(st.residents, st.marks, st.log, onEviction, d0, m3, e0, requested, capacity, p, v);
      var ok := AddToDictionary(v);
      assert State() == AdmitInto(st, v);
    }

    /**
     * One admission attempt of the first pass for a requested variable that
     * is not resident: when the slots are full and something is marked, evict
     * the longest-idle marked resident; then admit the variable if a slot is free.
     */
    method TryAdmit(v: Variable, ghost d0: map<nat, Variable>, ghost m3: seq<bool>, ghost e0: seq<Eviction>, ghost requested: set<Variable>,
                    ghost counts: map<nat, nat>)
      requires AdmissionInvariant(d0, m3, e0, requested) && CountsOf(d0, counts)
      requires v in requested && !Resident(sharedDict, v)
      requires forall s :: s in d0 && s < |m3| && m3[s] ==> d0[s] !in requested
      modifies this, evictionMarking
      ensures AdmissionInvariant(d0, m3, e0, requested)
      ensures evictionMarking == old(evictionMarking) && onEviction == old(onEviction)
      ensures old(NoDuplicates()) ==> NoDuplicates()
      ensures |sharedDict| >= old(|sharedDict|)
      ensures Resident(sharedDict, v) || |sharedDict| == capacity
      ensures State() == AdmitIfRoom(EvictIfFull(old(State()), counts, capacity, onEviction), v, capacity)
    {
      if |sharedDict| >= capacity && CountTrue(evictionMarking[..]) > 0 {
        ghost var d1 := sharedDict;
        EvictForAdmission(d0, m3, e0, requested, counts);
        if Resident(sharedDict, v) {
          ResidentAfterGrowth(sharedDict, d1, v);
        }
      }
      if |sharedDict| < capacity {
        AdmitFree(v, d0, m3, e0, requested);
      }
    }

    /** One candidate of the first pass: if not resident and worth a slot, an admission attempt. */
    method FirstPassVisit(cand: (Variable, Option<int>), ghost d0: map<nat, Variable>, ghost m3: seq<bool>, ghost e0: seq<Eviction>, ghost requested: set<Variable>,
                          ghost counts: map<nat, nat>)
      requires AdmissionInvariant(d0, m3, e0, requested) && CountsOf(d0, counts)
      requires cand.0 in requested
      requires forall s :: s in d0 && s < |m3| && m3[s] ==> d0[s] !in requested
      modifies this, evictionMarking
      ensures AdmissionInvariant(d0, m3, e0, requested)
      ensures evictionMarking == old(evictionMarking) && onEviction == old(onEviction)
      ensures State() == FirstStep(old(State()), cand, counts, capacity, onEviction)
    {
      if !Resident(sharedDict, cand.0) && !SkipAdmission(cand.1) {
        TryAdmit(cand.0, d0, m3, e0, requested, counts);
      }
    }

    /**
     * The first admission pass: each candidate that is not resident and whose
     * estimate exceeds one is admitted, evicting a marked resident if needed.
     */
    method AdmitCandidates(cands: seq<(Variable, Option<int>)>, ghost d0: map<nat, Variable>, ghost m3: seq<bool>, ghost e0: seq<Eviction>, ghost requested: set<Variable>,
                           ghost counts: map<nat, nat>)
      requires AdmissionInvariant(d0, m3, e0, requested) && CountsOf(d0, counts)
      requires forall k :: 0 <= k < |cands| ==> cands[k].0 in requested
      requires forall s :: s in d0 && s < |m3| && m3[s] ==> d0[s] !in requested
      modifies this, evictionMarking
      ensures AdmissionInvariant(d0, m3, e0, requested)
      ensures evictionMarking == old(evictionMarking) && onEviction == old(onEviction)
      ensures State() == FirstPass(old(State()), cands, |cands|, counts, capacity, onEviction)
    {
      ghost var trace := [State()];
      var k := 0;
      while k < |cands|
        invariant 0 <= k <= |cands|
        invariant AdmissionInvariant(d0, m3, e0, requested)
        invariant evictionMarking == old(evictionMarking) && onEviction == old(onEviction)
        invariant FirstTrace(trace, cands, counts, capacity, onEviction) && |trace| == k + 1 && trace[0] == old(State()) && trace[k] == State()
      {
        FirstPassVisit(cands[k], d0, m3, e0, requested, counts);
        FirstTraceExtend(trace, cands, counts, capacity, onEviction, State());
        trace := trace + [State()];
        k := k + 1;
      }
      FirstTraceIsPass(trace, cands, counts, capacity, onEviction, |cands|);
    }

    /** One candidate of the second pass: if not resident, admitted while a slot is free. */
    method SecondPassVisit(v: Variable, ghost d0: map<nat, Variable>, ghost m3: seq<bool>, ghost e0: seq<Eviction>, ghost requested: set<Variable>)
      requires AdmissionInvariant(d0, m3, e0, requested)
      requires v in requested
      requires forall s :: s in d0 && s < |m3| && m3[s] ==> d0[s] !in requested
      modifies this
      ensures AdmissionInvariant(d0, m3, e0, requested)
      ensures evictionMarking == old(evictionMarking) && onEviction == old(onEviction)
      ensures State() == SecondStep(old(State()), v, capacity)
    {
      if !Resident(sharedDict, v) && |sharedDict| < capacity {
        AdmitFree(v, d0, m3, e0, requested);
      }
    }

    /**
     * The second admission pass: each candidate that is not resident is
     * admitted while a slot is free, whatever its estimate, evicting nothing.
     */
    method FillFreeSlots(cands: seq<(Variable, Option<int>)>, ghost d0: map<nat, Variable>, ghost m3: seq<bool>, ghost e0: seq<Eviction>, ghost requested: set<Variable>)
      requires AdmissionInvariant(d0, m3, e0, requested)
      requires forall k :: 0 <= k < |cands| ==> cands[k].0 in requested
      requires forall s :: s in d0 && s < |m3| && m3[s] ==> d0[s] !in requested
      modifies this
      ensures AdmissionInvariant(d0, m3, e0, requested)
      ensures evictionMarking == old(evictionMarking) && onEviction == old(onEviction)
      ensures State() == SecondPass(old(State()), cands, |cands|, capacity)
    {
      ghost var trace := [State()];
      var k := 0;
      while k < |cands|
        invariant 0 <= k <= |cands|
        invariant AdmissionInvariant(d0, m3, e0, requested)
        invariant evictionMarking == old(evictionMarking) && onEviction == old(onEviction)
        invariant SecondTrace(trace, cands, capacity) && |trace| == k + 1 && trace[0] == old(State()) && trace[k] == State()
      {
        SecondPassVisit(cands[k].0, d0, m3, e0, requested);
        SecondTraceExtend(trace, cands, capacity, State());
        trace := trace + [State()];
        k := k + 1;
      }
      SecondTraceIsPass(trace, cands, capacity, |cands|);
    }

    /**
     * The load lines: for each slot, in ascending order, whose resident
     * equals none of the residents before the load point.
     */
    method WriteLoads(oldResidents: map<nat, Variable>, indent: nat) returns (lines: seq<string>)
      requires Valid()
      ensures lines == LoadLines(sharedDict, NewSlots(sharedDict, oldResidents, capacity), indent, render, lineEnd)
    {
      lines := [];
      var s := 0;
      while s < capacity
        invariant 0 <= s <= capacity
        invariant lines == LoadLines(sharedDict, NewSlots(sharedDict, oldResidents, s), indent, render, lineEnd)
      {
        ghost var before := NewSlots(sharedDict, oldResidents, s);
        if s in sharedDict && !Resident(oldResidents, sharedDict[s]) {
          assert NewSlots(sharedDict, oldResidents, s + 1) == before + [s];
          LoadLinesSnoc(sharedDict, before, s, indent, render, lineEnd);
          lines := lines + [LoadLine(indent, s, sharedDict[s], render, lineEnd)];
        } else {
          assert NewSlots(sharedDict, oldResidents, s + 1) == before;
        }
        s := s + 1;
      }
    }

    /**
     * Both admission passes over the candidates: the first pass runs always,
     * the second only when usage estimates are given and not empty.
     */
    method Admit(variables: seq<Variable>, estimatedUsage: Option<seq<int>>, ghost d0: map<nat, Variable>, ghost m3: seq<bool>, ghost e0: seq<Eviction>,
                 ghost counts: map<nat, nat>)
      requires AdmissionInvariant(d0, m3, e0, Elements(variables)) && CountsOf(d0, counts)
      requires estimatedUsage.Some? ==> |estimatedUsage.value| >= |variables|
      requires forall s :: s in d0 && s < |m3| && m3[s] ==> d0[s] !in Elements(variables)
      modifies this, evictionMarking
      ensures AdmissionInvariant(d0, m3, e0, Elements(variables))
      ensures evictionMarking == old(evictionMarking) && onEviction == old(onEviction)
      ensures forall s :: s in d0 ==> d0[s].lastUseCount == old(d0[s].lastUseCount)
      ensures old(NoDuplicates()) ==> NoDuplicates()
      ensures |sharedDict| >= old(|sharedDict|)
      ensures (forall i :: 0 <= i < |variables| ==> Resident(old(sharedDict), variables[i])) || estimatedUsage.None? ==>
        sharedDict == old(sharedDict) && sharedIndexes == old(sharedIndexes) && evictions == old(evictions)
      ensures estimatedUsage.Some? && |estimatedUsage.value| > 0 ==>
        forall i :: 0 <= i < |variables| ==> Resident(sharedDict, variables[i]) || |sharedDict| == capacity
      ensures State() == AdmissionOutcome(old(State()), variables, estimatedUsage, counts, capacity, onEviction)
    {
      ghost var st := State();
      var cands := Candidates(variables, estimatedUsage);
      AdmitCandidates(cands, d0, m3, e0, Elements(variables), counts);
      if estimatedUsage.Some? && |estimatedUsage.value| > 0 {
        FillFreeSlots(cands, d0, m3, e0, Elements(variables));
      }
      AdmissionOutcomeKeeps(st, variables, estimatedUsage, counts, capacity, onEviction);
    }

    /** The ageing and marking steps of `load_into_shared`. */
    method AgeAndMark(variables: seq<Variable>)
      requires Valid()
      modifies evictionMarking, sharedDict.Values
      ensures Valid()
      ensures forall s :: s in sharedDict ==> sharedDict[s].lastUseCount == old(sharedDict[s].lastUseCount) + 1
      ensures forall s :: 0 <= s < capacity ==>
        evictionMarking[s] == (s in sharedDict && Marking(old(sharedDict[s].lastUseCount) + 1, InList(sharedDict[s], variables), old(evictionMarking[s])))
    {
      AgeResidents();
      MarkSelfEvictions(variables);
    }

    /**
     * The ageing and marking steps of `load_into_shared`; they leave the
     * residents where they are, so admission starts from its invariant with
     * the marks m3 this returns.
     */
    method PrepareLoadPoint(variables: seq<Variable>) returns (ghost m3: seq<bool>, ghost counts: map<nat, nat>)
      requires Valid()
      modifies evictionMarking, sharedDict.Values
      ensures m3 == evictionMarking[..] && CountsOf(sharedDict, counts) && counts.Keys == sharedDict.Keys
      ensures forall s :: s in old(sharedDict) ==> old(sharedDict)[s].lastUseCount == old(sharedDict[s].lastUseCount) + 1
      ensures |m3| == capacity
      ensures forall s :: 0 <= s < capacity ==>
        m3[s] == (s in old(sharedDict) && Marking(old(sharedDict[s].lastUseCount) + 1, InList(old(sharedDict)[s], variables), old(evictionMarking[s])))
      ensures AdmissionInvariant(sharedDict, m3, evictions, Elements(variables))
      ensures forall s :: s in sharedDict && s < |m3| && m3[s] ==> sharedDict[s] !in Elements(variables)
    {
      AgeAndMark(variables);
      m3 := evictionMarking[..];
      counts := IdleCounts(sharedDict);
      AdmissionKeptAtStart(sharedDict, m3, evictions, onEviction, Elements(variables), capacity);
      MarksSpareRequested(sharedDict, m3, variables);
    }

    /**
     * The admission and reporting steps of `load_into_shared`, from the
     * residents oldResidents, marks m3 and callback log e0 the ageing and
     * marking steps left.
     */
    method AdmitAndLoad(variables: seq<Variable>, estimatedUsage: Option<seq<int>>, indent: nat, load: bool,
                        oldResidents: map<nat, Variable>, ghost m3: seq<bool>, ghost e0: seq<Eviction>, ghost counts: map<nat, nat>)
      returns (lines: seq<string>, newlyLoaded: map<nat, bool>)
      requires oldResidents == sharedDict && e0 == evictions && m3 == evictionMarking[..] && CountsOf(oldResidents, counts)
      requires AdmissionInvariant(oldResidents, m3, e0, Elements(variables))
      requires estimatedUsage.Some? ==> |estimatedUsage.value| >= |variables|
      requires forall s :: s in oldResidents && s < |m3| && m3[s] ==> oldResidents[s] !in Elements(variables)
      modifies this, evictionMarking
      ensures evictionMarking == old(evictionMarking) && onEviction == old(onEviction)
      ensures forall s :: s in oldResidents ==> oldResidents[s].lastUseCount == old(oldResidents[s].lastUseCount)
      ensures AdmissionInvariant(oldResidents, m3, e0, Elements(variables))
      ensures |sharedDict| >= |oldResidents|
      ensures old(NoDuplicates()) ==> NoDuplicates()
      ensures lines == (if load then LoadLines(sharedDict, NewSlots(sharedDict, oldResidents, capacity), indent, render, lineEnd) else [])
      ensures newlyLoaded == NewlyLoaded(sharedDict, oldResidents)
      ensures (forall i :: 0 <= i < |variables| ==> Resident(oldResidents, variables[i])) || estimatedUsage.None? ==>
        sharedDict == oldResidents && sharedIndexes == old(sharedIndexes) && evictions == e0
      ensures estimatedUsage.Some? && |estimatedUsage.value| > 0 ==>
        forall i :: 0 <= i < |variables| ==> Resident(sharedDict, variables[i]) || |sharedDict| == capacity
      ensures State() == AdmissionOutcome(Snapshot(oldResidents, old(sharedIndexes), m3, e0), variables, estimatedUsage, counts, capacity, onEviction)
    {
      Admit(variables, estimatedUsage, oldResidents, m3, e0, counts);
      if load {
        lines := WriteLoads(oldResidents, indent);
      } else {
        lines := [];
      }
      newlyLoaded := NewlyLoaded(sharedDict, oldResidents);
    }

    /**
     * `load_into_shared`: at a load point for the given variables, ages every
     * resident, updates the eviction marks, admits candidates in two passes
     * and returns the load lines (when asked to load) and, per resident slot,
     * whether its variable was newly loaded.
     */
    method LoadIntoShared(variables: seq<Variable>, estimatedUsage: Option<seq<int>>, indent: nat, load: bool)
      returns (lines: seq<string>, newlyLoaded: map<nat, bool>, ghost marks: seq<bool>, ghost counts: map<nat, nat>)
      requires Valid()
      requires estimatedUsage.Some? ==> |estimatedUsage.value| >= |variables|
      modifies this, evictionMarking, sharedDict.Values
      ensures evictionMarking == old(evictionMarking) && onEviction == old(onEviction)
      ensures forall s :: s in old(sharedDict) ==> old(sharedDict)[s].lastUseCount == old(sharedDict[s].lastUseCount) + 1
      ensures |marks| == capacity
      ensures forall s :: 0 <= s < capacity ==>
        marks[s] == (s in old(sharedDict) && Marking(old(sharedDict[s].lastUseCount) + 1, InList(old(sharedDict)[s], variables), old(evictionMarking[s])))
      ensures AdmissionInvariant(old(sharedDict), marks, old(evictions), Elements(variables))
      ensures |sharedDict| >= |old(sharedDict)|
      ensures old(NoDuplicates()) ==> NoDuplicates()
      ensures lines == (if load then LoadLines(sharedDict, NewSlots(sharedDict, old(sharedDict), capacity), indent, render, lineEnd) else [])
      ensures newlyLoaded == NewlyLoaded(sharedDict, old(sharedDict))
      ensures (forall i :: 0 <= i < |variables| ==> Resident(old(sharedDict), variables[i])) || estimatedUsage.None? ==>
        sharedDict == old(sharedDict) && sharedIndexes == old(sharedIndexes) && evictions == old(evictions)
      ensures estimatedUsage.Some? && |estimatedUsage.value| > 0 ==>
        forall i :: 0 <= i < |variables| ==> Resident(sharedDict, variables[i]) || |sharedDict| == capacity
      ensures counts.Keys == old(sharedDict).Keys
      ensures forall s :: s in old(sharedDict) ==> counts[s] == old(sharedDict[s].lastUseCount) + 1
      ensures State() == AdmissionOutcome(Snapshot(old(sharedDict), old(sharedIndexes), marks, old(evictions)),
                                          variables, estimatedUsage, counts, capacity, onEviction)
      ensures |evictions| >= |old(evictions)| && evictions[..|old(evictions)|] == old(evictions)
      ensures forall k :: |old(evictions)| <= k < |evictions| ==>
        var e := evictions[k]; e.slot in old(sharedDict) && e == Eviction(old(sharedDict)[e.slot], SlotAddress(e.slot), e.slot)
      ensures forall k, l :: |old(evictions)| <= k < l < |evictions| ==> evictions[k].slot != evictions[l].slot
      ensures onEviction ==> forall s: nat :: Vacated(old(sharedDict), sharedDict, s) <==> SlotLogged(evictions, |old(evictions)|, s)
      ensures !onEviction ==> evictions == old(evictions)
    {
      var oldResidents := sharedDict;
      ghost var e0 := evictions;
      marks, counts := PrepareLoadPoint(variables);
      lines, newlyLoaded := AdmitAndLoad(variables, estimatedUsage, indent, load, oldResidents, marks, evictions, counts);
      LogOfVacated(sharedDict, evictionMarking[..], evictions, onEviction, oldResidents, marks, e0, Elements(variables), capacity);
    }
  }
}
