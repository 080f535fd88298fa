/**
 * The invariant that admission keeps during one load point of
 * `load_into_shared` (pyjac/core/shared_memory.py), stated on the manager's
 * residents, marks and eviction-callback log as values, with the steps that
 * preserve it: evicting a marked resident and admitting a requested variable
 * into a free slot.
 */
module Admission {
  import opened Optional
  import opened SharedVariable
  import opened Slots

  /** One call of the eviction callback: the evicted variable, its slot address, its slot. */
  datatype Eviction = Eviction(v: Variable, address: string, slot: nat)

  /** The manager's state as a value: residents, free stack, marks and callback log. */
  datatype Snapshot = Snapshot(residents: map<nat, Variable>, free: seq<nat>, marks: seq<bool>, log: seq<Eviction>)

  /** `evict(s)` on a state: delete, push on the free stack, unmark, and log when a callback is installed. */
  function EvictSlot(c: Snapshot, s: nat, onEviction: bool): Snapshot
    requires s in c.residents && s < |c.marks|
  {
    Snapshot(c.residents - {s}, c.free + [s], c.marks[s := false],
             c.log + (if onEviction then [Eviction(c.residents[s], SlotAddress(s), s)] else []))
  }

  /** `add_to_dictionary(v)` on a state: the last free slot leaves the stack and holds v. */
  function AdmitInto(c: Snapshot, v: Variable): Snapshot
    requires c.free != []
  {
    Snapshot(c.residents[c.free[|c.free| - 1] := v], c.free[..|c.free| - 1], c.marks, c.log)
  }

  /**
   * s is, among the marked residents below n that have an idle count in
   * counts, one with the greatest count, and the lowest slot among equals.
   */
  predicate LongestAmong(d: map<nat, Variable>, marks: seq<bool>, counts: map<nat, nat>, n: nat, s: nat)
  {
    && s < n && s < |marks| && s in d && marks[s] && s in counts
    && (forall t :: t < n && t < |marks| && t in d && marks[t] && t in counts ==> counts[t] <= counts[s])
    && (forall t :: t < s && t < |marks| && t in d && marks[t] && t in counts ==> counts[t] < counts[s])
  }

  /** At most one slot is the longest-idle marked resident. */
  lemma LongestAmongUnique(d: map<nat, Variable>, marks: seq<bool>, counts: map<nat, nat>, n: nat, s: nat, t: nat)
    requires LongestAmong(d, marks, counts, n, s) && LongestAmong(d, marks, counts, n, t)
    ensures s == t
  {
  }

  /**
   * The choice of `max` over the marked residents below n, scanned in
   * ascending slot order: a later slot wins only with a strictly greater count.
   */
  function LongestGap(d: map<nat, Variable>, marks: seq<bool>, counts: map<nat, nat>, n: nat): (r: Option<nat>)
    requires n <= |marks|
    ensures r.Some? ==> r.value < n && r.value in d && marks[r.value]
  {
    if n == 0 then None
    else
      var best := LongestGap(d, marks, counts, n - 1);
      var t := n - 1;
      if t in d && marks[t] && t in counts && (best.None? || best.value !in counts || counts[best.value] < counts[t]) then Some(t)
      else best
  }

  /**
   * The scan finds the longest-idle marked resident below n, and finds
   * nothing exactly when no resident below n with an idle count is marked.
   */
  lemma {:induction false} LongestGapSpec(d: map<nat, Variable>, marks: seq<bool>, counts: map<nat, nat>, n: nat)
    requires n <= |marks|
    ensures LongestGap(d, marks, counts, n).Some? ==> LongestAmong(d, marks, counts, n, LongestGap(d, marks, counts, n).value)
    ensures LongestGap(d, marks, counts, n).None? <==> forall t :: t < n && t in d && marks[t] ==> t !in counts
  {
    if n > 0 {
      LongestGapSpec(d, marks, counts, n - 1);
      var best := LongestGap(d, marks, counts, n - 1);
      var t := n - 1;
      if best.Some? {
        assert LongestAmong(d, marks, counts, n - 1, best.value);
      }
      if LongestGap(d, marks, counts, n).None? {
        forall u | u < n && u in d && marks[u]
          ensures u !in counts
        {
          if u < n - 1 {
            assert best.None?;
          }
        }
      }
    }
  }

  /** An eviction during a load point: of a slot marked after ageing, holding its old resident. */
  ghost predicate EvictionOfMarked(e: Eviction, d0: map<nat, Variable>, m3: seq<bool>)
  {
    e.slot in d0 && e.slot < |m3| && m3[e.slot] && e.v == d0[e.slot] && e.address == SlotAddress(e.slot)
  }

  /**
   * What admission keeps during a load point, for residents d, marks marks
   * and callback log log, relative to the residents d0, the marks m3 and the
   * log e0 as they were after the marking step: marks stay on untouched
   * marked old residents only, unmarked old residents stay, every other
   * resident is requested, and every callback call is for a marked old
   * resident.
   */
  ghost predicate AdmissionKept(d: map<nat, Variable>, marks: seq<bool>, log: seq<Eviction>, onEviction: bool,
                                d0: map<nat, Variable>, m3: seq<bool>, e0: seq<Eviction>, requested: set<Variable>, capacity: nat)
  {
    && |marks| == capacity && |m3| == capacity
    && (forall s :: s in d0 ==> s < capacity)
    && (forall s :: s in d ==> (s in d0 && d[s] == d0[s]) || d[s] in requested)
    && (forall s :: 0 <= s < capacity && marks[s] ==> s in d0 && s in d && d[s] == d0[s] && m3[s])
    && (forall s :: s in d0 && s < capacity && !m3[s] ==> s in d && d[s] == d0[s])
    && (forall s :: s in d0 && s < capacity && s in d && d[s] == d0[s] ==> marks[s] == m3[s])
    && LogKept(log, marks, onEviction, d0, m3, e0, capacity)
  }

  /**
   * The callback log's part of the invariant: it extends e0 by entries for
   * marked old residents whose marks are now clear, one per slot, and with a
   * callback installed every such slot has its entry.
   */
  ghost predicate LogKept(log: seq<Eviction>, marks: seq<bool>, onEviction: bool,
                          d0: map<nat, Variable>, m3: seq<bool>, e0: seq<Eviction>, capacity: nat)
    requires |marks| == capacity && |m3| == capacity
  {
    && |log| >= |e0| && log[..|e0|] == e0
    && (forall k :: |e0| <= k < |log| ==> EvictionOfMarked(log[k], d0, m3) && log[k].slot < capacity && !marks[log[k].slot])
    && (forall k, l :: |e0| <= k < l < |log| ==> log[k].slot != log[l].slot)
    && (onEviction ==> forall s :: s in d0 && s < capacity && m3[s] && !marks[s] ==> SlotLogged(log, |e0|, s))
    && (!onEviction ==> log == e0)
  }

  /** Some callback entry at or after position from is for slot s. */
  ghost predicate SlotLogged(log: seq<Eviction>, from: nat, s: nat)
  {
    exists k :: from <= k < |log| && log[k].slot == s
  }

  /** Slot s held an old resident that no longer sits there. */
  predicate Vacated(d0: map<nat, Variable>, d: map<nat, Variable>, s: nat)
  {
    s in d0 && !(s in d && d[s] == d0[s])
  }

  /**
   * Under the invariant the callback log grows by exactly one entry per
   * vacated old slot: each new entry names an old slot, its old resident and
   * its address, no slot is named twice, and with a callback installed a
   * slot is named exactly when it was vacated; without one the log stays.
   */
  lemma LogOfVacated(d: map<nat, Variable>, marks: seq<bool>, log: seq<Eviction>, onEviction: bool,
                     d0: map<nat, Variable>, m3: seq<bool>, e0: seq<Eviction>, requested: set<Variable>, capacity: nat)
    requires AdmissionKept(d, marks, log, onEviction, d0, m3, e0, requested, capacity)
    ensures |log| >= |e0| && log[..|e0|] == e0
    ensures forall k :: |e0| <= k < |log| ==>
      var e := log[k]; e.slot in d0 && e == Eviction(d0[e.slot], SlotAddress(e.slot), e.slot)
    ensures forall k, l :: |e0| <= k < l < |log| ==> log[k].slot != log[l].slot
    ensures onEviction ==> forall s: nat :: Vacated(d0, d, s) <==> SlotLogged(log, |e0|, s)
    ensures !onEviction ==> log == e0
  {
    forall k | |e0| <= k < |log|
      ensures log[k].slot in d0 && log[k] == Eviction(d0[log[k].slot], SlotAddress(log[k].slot), log[k].slot)
    {
      assert EvictionOfMarked(log[k], d0, m3);
    }
    if onEviction {
      forall s: nat
        ensures Vacated(d0, d, s) <==> SlotLogged(log, |e0|, s)
      {
        if SlotLogged(log, |e0|, s) {
          var k :| |e0| <= k < |log| && log[k].slot == s;
          assert EvictionOfMarked(log[k], d0, m3) && !marks[s];
        }
      }
    }
  }

  /** Right after the marking step, admission's invariant holds of the state as it is. */
  lemma AdmissionKeptAtStart(d: map<nat, Variable>, marks: seq<bool>, log: seq<Eviction>, onEviction: bool, requested: set<Variable>, capacity: nat)
    requires |marks| == capacity && (forall s :: s in d ==> s < capacity)
    requires forall s :: 0 <= s < capacity && marks[s] ==> s in d
    ensures AdmissionKept(d, marks, log, onEviction, d, marks, log, requested, capacity)
  {
  }

  /**
   * Evicting a marked resident, which clears its mark (marks' is marks with
   * slot s cleared), and logging it when a callback is installed, keeps the
   * invariant.
   */
  lemma {:induction false} AdmissionKeptByEviction(d: map<nat, Variable>, marks: seq<bool>, log: seq<Eviction>, onEviction: bool,
                                     d0: map<nat, Variable>, m3: seq<bool>, e0: seq<Eviction>, requested: set<Variable>, capacity: nat,
                                     s: nat, marks': seq<bool>)
    requires AdmissionKept(d, marks, log, onEviction, d0, m3, e0, requested, capacity)
    requires s < capacity && marks[s]
    requires |marks'| == |marks| && forall t :: 0 <= t < |marks| ==> marks'[t] == (t != s && marks[t])
    ensures s in d
    ensures AdmissionKept(d - {s}, marks', log + (if onEviction then [Eviction(d[s], SlotAddress(s), s)] else []),
                          onEviction, d0, m3, e0, requested, capacity)
  {
    assert EvictionOfMarked(Eviction(d[s], SlotAddress(s), s), d0, m3);
    LogKeptByEviction(log, marks, onEviction, d0, m3, e0, capacity, s, marks', Eviction(d[s], SlotAddress(s), s));
  }

  /** Clearing the mark of slot s and logging its eviction keeps the log's part of the invariant. */
  lemma LogKeptByEviction(log: seq<Eviction>, marks: seq<bool>, onEviction: bool,
                          d0: map<nat, Variable>, m3: seq<bool>, e0: seq<Eviction>, capacity: nat,
                          s: nat, marks': seq<bool>, e: Eviction)
    requires |marks| == capacity && |m3| == capacity && LogKept(log, marks, onEviction, d0, m3, e0, capacity)
    requires s < capacity && marks[s] && e.slot == s && EvictionOfMarked(e, d0, m3)
    requires |marks'| == |marks| && forall t :: 0 <= t < |marks| ==> marks'[t] == (t != s && marks[t])
    ensures LogKept(log + (if onEviction then [e] else []), marks', onEviction, d0, m3, e0, capacity)
  {
    var log' := log + (if onEviction then [e] else []);
    assert log'[..|e0|] == log[..|e0|];
    if onEviction {
      forall t | t in d0 && t < capacity && m3[t] && !marks'[t]
        ensures SlotLogged(log', |e0|, t)
      {
        if t == s {
          assert log'[|log|].slot == t;
        } else {
          var k :| |e0| <= k < |log| && log[k].slot == t;
          assert log'[k].slot == t;
        }
      }
    }
  }

  /**
   * Admitting a requested variable into a free slot keeps the invariant,
   * provided no marked old resident is itself requested.
   */
  lemma AdmissionKeptByAdmission(d: map<nat, Variable>, marks: seq<bool>, log: seq<Eviction>, onEviction: bool,
                                 d0: map<nat, Variable>, m3: seq<bool>, e0: seq<Eviction>, requested: set<Variable>, capacity: nat,
                                 p: nat, v: Variable)
    requires AdmissionKept(d, marks, log, onEviction, d0, m3, e0, requested, capacity)
    requires p < capacity && p !in d && !marks[p] && v in requested
    requires forall s :: s in d0 && s < |m3| && m3[s] ==> d0[s] !in requested
    ensures AdmissionKept(d[p := v], marks, log, onEviction, d0, m3, e0, requested, capacity)
  {
  }
}
