# Shared-memory slot allocator of pyJac

pyJac's CUDA code generator keeps some of its temporaries in a small per-thread
region of shared memory. `pyjac/core/shared_memory.py` decides, at every load
point of the generated kernel, which variables are resident there.

- A `variable` is a reference to a generated variable: a base name, an optional
  array index, a language tag, and a count of load points since its last use.
- A `shared_memory_manager` owns a fixed number of slots per thread. It tracks:
  - the residents of the slots, a dictionary from slot to variable;
  - a stack of free slots;
  - a per-slot eviction mark;
  - an optional eviction callback.

  At a load point (`load_into_shared`) the manager does four things in order:
  - it ages every resident;
  - it marks idle residents that are not requested for eviction, and unmarks requested ones;
  - it admits the requested variables in two greedy passes, the first ordered by descending usage estimate;
  - it writes one load line for each newly admitted resident.

  `get_array` turns a reference into either a slot address or its ordinary array text.

The Dafny project models this file module by module:

- `Optional`: `Option`.
- `Text`: decimal digits and indentation.
- `SharedVariable`: the `variable` class. `Variable` is a Dafny class. `lastUseCount` is its only mutable field.
- `UsageRanking`: the stable descending sort of positions by estimate.
- `Slots`: the capacity, slot addresses and `write_init`'s declaration. It also holds the `list.count(True)` helper, the fixed iteration order and the slot bookkeeping invariant.
- `Admission`: the invariant that admission keeps during one load point.
- `SharedMemory`: the manager as the class `SharedMemoryManager`.
  - Its fields are `sharedDict` (a `map`), `sharedIndexes` (a `seq` used as a stack) and `evictionMarking` (an `array<bool>`).
  - A flag says whether a callback is installed.
  - A log records every callback call, with its variable, address and slot.

The manager's class invariant `Valid()` states the slot bookkeeping:
- residents sit below the capacity;
- free slots are below the capacity, not resident, and listed once each;
- residents plus free slots number the capacity;
- no object sits in two slots;
- every marked slot is resident.

Every state-changing method keeps `Valid()`.

Choices that affect the model:

- Python dictionaries iterate in hash order. The model iterates the slot dictionary in ascending slot order everywhere the order matters:
  - the tie-break in `evict_longest_gap` (Python's `max` keeps the first maximum, so the lowest slot wins);
  - the order of `force_eviction`;
  - the first match of `get_index`;
  - the order of the load lines.
- Python 2 semantics are kept:
  - `x in xs` compares with `x` on the left of the asymmetric `__eq__`;
  - `get_index` compares with the resident on the left;
  - `None <= 1` is true, so without estimates the first admission pass admits nothing;
  - the second pass runs only when the estimates are given and non-empty.
- Failures change nothing and are reported as a result flag:
  - `evict` of a slot that is not resident raises `KeyError`, which becomes `ok == false`;
  - `add_to_dictionary` with no free slot fails its `assert`, which becomes `ok == false`;
  - `evict_longest_gap` with residents but none marked raises `ValueError` from `max` of an empty sequence, which becomes `raised`.
- Two behaviours of the code are kept as written:
  - `__eq__` compares only the base names when the left operand has no index (lines 18-19), so equality is lopsided;
  - `evict_longest_gap` raises `ValueError` when there are residents but none is marked (line 52), because `max` gets an empty sequence.
- Admission is stated twice. The two passes are value-level folds (`FirstPass`, `SecondPass`) of a single step over the candidates, on a `Snapshot` of residents, free stack, marks and callback log. The manager's loops are proved equal to those folds, and the admission policy is proved about the folds.

## Model

| member | source | states |
|---|---|---|
| SharedVariable.Variable.constructor | pyjac/core/shared_memory.py:12-16 | A new reference has the given base, index and language, and an idle count of zero. |
| SharedVariable.Variable.Matches | pyjac/core/shared_memory.py:17-20 | A reference matches only its own base name. An index-less reference matches every index of its base, and an indexed reference matches only the same index. |
| SharedVariable.Variable.Eq | pyjac/core/shared_memory.py:17-20 | `self == other` holds only for the same base name, and, when `self` has an index, only for the same index. It always holds for the same base and index. |
| SharedVariable.EqProperties | pyjac/core/shared_memory.py:17-20 | `a == b` holds exactly when the bases agree and either `a` has no index or the indexes agree. So `__eq__` is reflexive, and it holds both ways exactly when base and index agree. It is lopsided: an index-less left operand equals an indexed variable of the same base, but not the other way round. |
| SharedVariable.Variable.Reset | pyjac/core/shared_memory.py:21-22 | `reset` sets the idle count to zero. |
| SharedVariable.Variable.Update | pyjac/core/shared_memory.py:23-24 | `update` raises the idle count by exactly one. |
| SharedVariable.Render | pyjac/core/shared_memory.py:25-28 | A scalar renders as its bare base name. An indexed reference renders through the external array renderer. |
| SharedVariable.ResidentObject | pyjac/core/shared_memory.py:113 | An object that sits in a slot is found by `in d.itervalues()`. |
| Text.NatToStringDigits | pyjac/core/shared_memory.py:148 | The decimal text of a slot number is a non-empty run of digits. It is a single digit exactly below ten. |
| Text.NatToStringInjective | pyjac/core/shared_memory.py:148 | Different slot numbers never render to the same digits. |
| Text.NatToStringValue | pyjac/core/shared_memory.py:148 | Reading the digits of a slot number back in base ten, most significant first, gives the number. |
| Text.Spaces | pyjac/core/shared_memory.py:77 | The indentation prefix is exactly n blanks. |
| Slots.Capacity | pyjac/core/shared_memory.py:37-38 | The two floored divisions give the largest per-thread slot count whose total over all threads of all resident blocks fits in the shared memory. |
| Slots.SkeletonInjective | pyjac/core/shared_memory.py:35 | Filling the `shared_temp[{}]` skeleton loses nothing: equal results mean equal arguments. |
| Slots.SlotAddressForm | pyjac/core/shared_memory.py:144-148 | Every address indexes the `shared_temp` array. Inside the brackets, slot 0 is `threadIdx.x` and slot n is `threadIdx.x + n * blockDim.x` with n in decimal. |
| Slots.SlotAddressInjective | pyjac/core/shared_memory.py:144-148 | `__get_string` gives distinct slots distinct addresses, including slot 0's special form. |
| Slots.CountTrue | pyjac/core/shared_memory.py:119 | `eviction_marking.count(True)` is at most the number of slots, and it is truthy exactly when some slot is marked. |
| Slots.AscendingKeys | pyjac/core/shared_memory.py:45 | The iteration order lists only resident slots below the bound. |
| Slots.AscendingKeysSpec | pyjac/core/shared_memory.py:45 | The iteration order lists exactly the resident slots below the bound, strictly ascending, so each appears once. |
| Slots.FirstMatch | pyjac/core/shared_memory.py:151 | The search returns a slot whose resident equals the reference, resident on the left, with no equal resident at a lower slot. It returns none only when no resident in the range equals it. |
| Slots.BookkeepingAfterAdmission | pyjac/core/shared_memory.py:63-65 | Popping the last free slot, which is never resident, and installing a variable held nowhere else keeps the bookkeeping: residents plus free slots still number the capacity. |
| Slots.BookkeepingAfterEviction | pyjac/core/shared_memory.py:56-59 | Deleting a resident slot and pushing it on the free stack keeps the bookkeeping. |
| Slots.EverySlotResidentOrFree | pyjac/core/shared_memory.py:56-65 | Under the bookkeeping, every slot below the capacity is either resident or free, never both. |
| UsageRanking.RankOrder | pyjac/core/shared_memory.py:102-103 | The sort returns n positions, each below n. |
| UsageRanking.Insert | pyjac/core/shared_memory.py:102-103 | One insertion step adds exactly the new position to the multiset of positions. |
| UsageRanking.InsertRanked | pyjac/core/shared_memory.py:102-103 | Inserting a later position after every position with an estimate at least as large keeps the order descending and stable. |
| UsageRanking.RankOrderPermutes | pyjac/core/shared_memory.py:102-103 | The sort's output is a permutation of the positions 0 .. n-1. |
| UsageRanking.RankOrderRanked | pyjac/core/shared_memory.py:102-103 | The sort's output is descending by estimate. Equal estimates keep their original order, as Python's stable sort with `reverse=True` does. |
| UsageRanking.RankOrderCovers | pyjac/core/shared_memory.py:102-103 | Every position 0 .. n-1 appears in the sort's output. |
| Admission.LongestGap | pyjac/core/shared_memory.py:52-53 | The scan's choice, when there is one, is a marked resident below the bound. |
| Admission.LongestGapSpec | pyjac/core/shared_memory.py:52-53 | The scan finds the marked resident with the greatest idle count, the lowest slot among equals, as `max` does. It finds nothing exactly when no resident is marked. |
| Admission.LongestAmongUnique | pyjac/core/shared_memory.py:52-53 | At most one slot is the longest-idle marked resident under the lowest-slot tie-break. |
| Admission.LogOfVacated | pyjac/core/shared_memory.py:56-62 | Under the admission invariant, the callback log keeps its old entries and gains exactly one entry per vacated old slot. Each entry carries that slot's old resident and address, and no slot appears twice. Without a callback the log does not change. |
| Admission.AdmissionKeptAtStart | pyjac/core/shared_memory.py:91-98 | Right after marking, the admission invariant holds of the state as it is. |
| Admission.AdmissionKeptByEviction | pyjac/core/shared_memory.py:117-120 | Evicting a marked slot keeps the admission invariant. The mark is cleared, and at most one callback call is logged, for a slot that was marked after ageing and still held its old resident. |
| Admission.LogKeptByEviction | pyjac/core/shared_memory.py:56-62 | Clearing a marked slot's mark and logging its eviction keeps the log's part of the invariant: the new entry's slot is not already logged, and every cleared old mark has its entry. |
| Admission.AdmissionKeptByAdmission | pyjac/core/shared_memory.py:121-123 | Admitting a requested variable into a free, unmarked slot keeps the admission invariant, provided no marked old resident is itself requested. |
| SharedMemory.Marking | pyjac/core/shared_memory.py:91-98 | A requested resident is always unmarked. An unrequested resident that the strategy of line 42 selects (idle for at least two load points) is marked. In no other case does the mark change. |
| SharedMemory.SelfEvictionMarks | pyjac/core/shared_memory.py:91-98 | A requested resident is unmarked. An unrequested resident idle for at least two load points is marked. Any other resident keeps its mark, and a slot with no resident is unmarked. |
| SharedMemory.MarksSpareRequested | pyjac/core/shared_memory.py:91-98 | The marking step never marks a resident that is itself one of the requested objects. |
| SharedMemory.Candidates | pyjac/core/shared_memory.py:100-111 | Without estimates the candidates are the requested variables as given, with no usage. With estimates, candidate k is the variable at the k-th position of the sort, paired with that variable's own estimate. |
| SharedMemory.CandidatesCoverRequests | pyjac/core/shared_memory.py:100-106 | Every requested variable is considered by the admission loop. |
| SharedMemory.CandidatesDescending | pyjac/core/shared_memory.py:100-106 | With estimates, the candidates are the requested positions permuted, each with its own estimate. They come in descending order of estimate, and equal estimates keep input order. |
| SharedMemory.EvictIfFullChoosesLongest | pyjac/core/shared_memory.py:117-120 | With the slots full and a resident marked, the step evicts the longest-idle marked resident, the lowest slot among equals. Otherwise it changes nothing. |
| SharedMemory.FirstStepAdmits | pyjac/core/shared_memory.py:111-123 | A non-resident candidate whose usage is above one (line 115) is admitted when a slot is free or a resident is marked. It takes the last free slot of the state after the eviction. |
| SharedMemory.NoEstimatesAdmitNothing | pyjac/core/shared_memory.py:113-116 | Without estimates every usage is `None`, which Python 2 orders below 1, so the first pass and the whole admission change nothing. |
| SharedMemory.FirstTraceExtend | pyjac/core/shared_memory.py:111-123 | Appending the first-pass step of the next candidate extends a first-pass trace. |
| SharedMemory.SecondTraceExtend | pyjac/core/shared_memory.py:127-130 | Appending the second-pass step of the next candidate extends a second-pass trace. |
| SharedMemory.FirstTraceIsPass | pyjac/core/shared_memory.py:111-123 | The last state of a first-pass trace is the first pass over that many candidates. |
| SharedMemory.SecondTraceIsPass | pyjac/core/shared_memory.py:127-130 | The last state of a second-pass trace is the second pass over that many candidates. |
| SharedMemory.AdmitIntoKeeps | pyjac/core/shared_memory.py:63-65 | Admitting a non-resident variable into the last free slot keeps the bookkeeping and distinct keys, keeps every resident, grows the residents by one and makes the variable resident. |
| SharedMemory.EvictSlotKeeps | pyjac/core/shared_memory.py:56-59 | Evicting a resident slot keeps the bookkeeping and distinct keys, and shrinks the residents by exactly that slot. |
| SharedMemory.EvictIfFullKeeps | pyjac/core/shared_memory.py:117-120 | The eviction step keeps the bookkeeping and distinct keys and removes at most one resident. When it removes one, a slot is free afterwards. |
| SharedMemory.NotResidentAfterShrink | pyjac/core/shared_memory.py:113 | A variable not equal to any resident is still not equal to any after residents are removed. |
| SharedMemory.FirstStepKeeps | pyjac/core/shared_memory.py:111-123 | One first-pass step keeps the bookkeeping and distinct keys and never shrinks the residents. |
| SharedMemory.FirstPassKeeps | pyjac/core/shared_memory.py:111-123 | The whole first pass keeps the bookkeeping and distinct keys and never shrinks the residents. |
| SharedMemory.FirstPassQuiet | pyjac/core/shared_memory.py:111-116 | A first pass whose candidates are all resident or not worth a slot changes nothing. |
| SharedMemory.SecondStepKeeps | pyjac/core/shared_memory.py:127-130 | One second-pass step keeps the bookkeeping, distinct keys, marks, log and every resident. Afterwards the variable is resident or the slots are full. |
| SharedMemory.SecondPassKeeps | pyjac/core/shared_memory.py:125-130 | The whole second pass keeps the bookkeeping, distinct keys, marks, log and every resident. |
| SharedMemory.SecondStepCovers | pyjac/core/shared_memory.py:127-130 | One second-pass step keeps every slot resident or free, and adds its candidate to those resident unless the slots are full. |
| SharedMemory.SecondPassCovers | pyjac/core/shared_memory.py:125-130 | After the second pass every candidate it has seen is resident, unless the slots are full. |
| SharedMemory.SecondPassQuiet | pyjac/core/shared_memory.py:125-130 | A second pass whose candidates are all resident changes nothing. |
| SharedMemory.CoverageKept | pyjac/core/shared_memory.py:125-130 | Growing the residents keeps every candidate handled so far resident, unless the slots are full. |
| SharedMemory.ResidentAfterGrowth | pyjac/core/shared_memory.py:113 | A resident variable stays resident when no slot loses its resident. |
| SharedMemory.AdmissionOutcomeKeeps | pyjac/core/shared_memory.py:100-130 | Both passes keep the bookkeeping and distinct keys and never shrink the residents. They change nothing when every requested variable is resident or no estimates are given. With non-empty estimates every requested variable ends resident or the slots full. |
| SharedMemory.LoadLineParts | pyjac/core/shared_memory.py:135 | Every load line is the indentation, the slot's address, ` = ` followed by the variable's text, and the line end. A scalar's text is its bare name. |
| SharedMemory.LoadLinesExactlyNew | pyjac/core/shared_memory.py:131-136 | There is a load line for exactly the residents equal to no old resident, resident on the left, in ascending slot order. Each line assigns the variable's text to its slot address. |
| SharedMemory.NewlyLoaded | pyjac/core/shared_memory.py:138 | The returned dictionary has one entry per resident slot. |
| SharedMemory.NewlyLoadedAreLoaded | pyjac/core/shared_memory.py:131-138 | The returned dictionary reports a slot as new exactly when that slot gets a load line. A slot still holding its old resident is reported as not new. |
| SharedMemory.NothingNewWhenUnchanged | pyjac/core/shared_memory.py:131-138 | When the residents did not change, no load line is written and every returned entry is false. |
| SharedMemory.ElementsOnly | pyjac/core/shared_memory.py:95 | The set of requested variables holds only requested variables. |
| SharedMemory.SharedMemoryManager.SlotsPartitioned | pyjac/core/shared_memory.py:56-65 | Under the class invariant, each slot is resident or free, never both, and there are never more residents than slots. |
| SharedMemory.SharedMemoryManager.constructor | pyjac/core/shared_memory.py:31-42 | The capacity is the two floored divisions. The state is the reset state: no residents, every slot free in ascending order, nothing marked, no callback. |
| SharedMemory.SharedMemoryManager.Reset | pyjac/core/shared_memory.py:70-74 | After `reset` there are no residents, the free stack is exactly 0 .. capacity-1, there is a fresh all-false mark array and the callback is cleared. |
| SharedMemory.SharedMemoryManager.SetOnEviction | pyjac/core/shared_memory.py:67-68 | Installs or clears the callback and changes nothing else. |
| SharedMemory.SharedMemoryManager.InitLine | pyjac/core/shared_memory.py:76-78 | `write_init` writes the indentation, then the unsized `extern __shared__ double shared_temp[]` declaration, then the line end. |
| SharedMemory.SharedMemoryManager.EvictedState | pyjac/core/shared_memory.py:56-62 | The manager's state after `evict(s)` is the eviction of slot s applied to the state before. |
| SharedMemory.SharedMemoryManager.Evict | pyjac/core/shared_memory.py:56-62 | Evicting a non-resident slot fails and changes nothing. Otherwise the slot is deleted, pushed on the free stack and unmarked, with no other mark changed. The callback is called once with the variable, its address and its slot when installed. The invariant is kept. |
| SharedMemory.SharedMemoryManager.AddToDictionary | pyjac/core/shared_memory.py:63-65 | With no free slot it fails and changes nothing. Otherwise the last free slot, which is not resident, is popped and holds the value. The invariant is kept, and no two residents share a key when the value was not resident. |
| SharedMemory.SharedMemoryManager.LongestGapSlot | pyjac/core/shared_memory.py:52-53 | Finds a slot exactly when one is marked. The slot found is a marked resident with the greatest idle count, the lowest such slot on ties. |
| SharedMemory.SharedMemoryManager.LongestGapIsScan | pyjac/core/shared_memory.py:52-53 | The slot `max` chooses on the manager is the one the scan over the idle counts finds. |
| SharedMemory.SharedMemoryManager.EvictLongestGap | pyjac/core/shared_memory.py:49-54 | With no residents it does nothing. With residents but no mark it raises and changes nothing. Otherwise it evicts the longest-idle marked resident, as `Evict` does. |
| SharedMemory.SharedMemoryManager.ForceEvictSlot | pyjac/core/shared_memory.py:46-47 | One step of `force_eviction` evicts slot s exactly when it is resident, extending the free stack and the callback log in order. |
| SharedMemory.SharedMemoryManager.ForceEviction | pyjac/core/shared_memory.py:44-47 | Every resident is evicted in ascending slot order. The free stack grows by exactly those slots, every mark is cleared, and the callback log gains one call per evicted resident in that order. |
| SharedMemory.SharedMemoryManager.GetIndex | pyjac/core/shared_memory.py:150-152 | Returns the lowest slot whose resident equals the reference, resident on the left, and none when no resident does. |
| SharedMemory.SharedMemoryManager.GetArray | pyjac/core/shared_memory.py:154-163 | A matching resident has its idle count reset and its slot address returned. Otherwise the reference's own text is returned. No other idle count changes. |
| SharedMemory.SharedMemoryManager.AgeResidents | pyjac/core/shared_memory.py:87-89 | Every resident's idle count rises by exactly one. |
| SharedMemory.SharedMemoryManager.MarkSelfEvictions | pyjac/core/shared_memory.py:91-98 | Each new mark is the `Marking` of the resident's count, its membership in the request and the old mark, so the marks are the self-eviction marks of the residents. The invariant, including "marked implies resident", is kept. |
| SharedMemory.SharedMemoryManager.AgeAndMark | pyjac/core/shared_memory.py:87-98 | Every resident ages by one, and each mark is recomputed from the aged count, membership in the request and the old mark. |
| SharedMemory.SharedMemoryManager.EvictForAdmission | pyjac/core/shared_memory.py:117-120 | With the slots full and something marked, the new state is the eviction step applied to the old one, which evicts the longest-idle marked resident. The admission invariant is kept. |
| SharedMemory.SharedMemoryManager.AdmitFree | pyjac/core/shared_memory.py:121-123 | The new state is the old one with the variable in the last free slot, popped from the stack. Old residents stay, no key is duplicated and the admission invariant is kept. |
| SharedMemory.SharedMemoryManager.TryAdmit | pyjac/core/shared_memory.py:117-123 | The new state is the eviction step, then admission if a slot is free, applied to the old state. Afterwards the variable is resident or the slots are full, and no key is duplicated. |
| SharedMemory.SharedMemoryManager.FirstPassVisit | pyjac/core/shared_memory.py:111-123 | The new state is the first-pass step of the candidate applied to the old one. |
| SharedMemory.SharedMemoryManager.AdmitCandidates | pyjac/core/shared_memory.py:105-123 | The first-pass loop ends in the first pass over all candidates, applied to the old state. The admission invariant is kept. |
| SharedMemory.SharedMemoryManager.SecondPassVisit | pyjac/core/shared_memory.py:127-130 | The new state is the second-pass step of the variable applied to the old one. |
| SharedMemory.SharedMemoryManager.FillFreeSlots | pyjac/core/shared_memory.py:125-130 | The second-pass loop ends in the second pass over all candidates, applied to the old state. The admission invariant is kept. |
| SharedMemory.SharedMemoryManager.WriteLoads | pyjac/core/shared_memory.py:131-136 | The lines written are the load lines of the new residents, in ascending slot order. |
| SharedMemory.SharedMemoryManager.Admit | pyjac/core/shared_memory.py:100-130 | The new state is the admission outcome, both passes over the candidates, applied to the old state. Both passes change nothing when every requested variable is resident or no estimates are given. With non-empty estimates every requested variable ends resident or the slots full. |
| SharedMemory.SharedMemoryManager.PrepareLoadPoint | pyjac/core/shared_memory.py:87-98 | Every resident ages by one. Each mark is recomputed from the aged count, membership in the request and the old mark. The admission invariant starts from that state, and no marked resident is requested. |
| SharedMemory.SharedMemoryManager.AdmitAndLoad | pyjac/core/shared_memory.py:100-138 | Admission followed by the load lines, only when `load` is true, and the newly-loaded map over the new residents. |
| SharedMemory.SharedMemoryManager.LoadIntoShared | pyjac/core/shared_memory.py:80-138 | A whole load point, as follows. Every old resident's idle count rises by exactly one. The marks are recomputed from those counts. The new state is the admission outcome from the aged and marked state. The callback log gains exactly one entry per vacated old slot, with that slot's old resident and address, and none without a callback. No key is duplicated. Load lines and the returned map cover exactly the new residents. When every requested variable was already resident, or no estimates are given, nothing changes. With non-empty estimates every requested variable ends resident or the slots full. |

## Left out

- The shared-memory size comes from `CUDAParams.get_shared_size` (line 32). It is a constructor parameter here; the platform query is not part of this model.
- `utils.get_array` and `utils.line_end['cuda']` are not part of this model. They are a renderer function and a line-end string given to the constructor.
- The `file` sink of `write_init` and `load_into_shared` is not modelled as I/O. `InitLine` returns the line, and `load_into_shared` returns its lines as a sequence.
- The eviction callback's body is not modelled. The manager records each call (variable, address, slot) in a log and a flag says whether a callback is installed.
- `mark_for_eviction` (line 140-142) is not modelled. It replaces the per-slot mark array with a list indexed by dictionary position, which breaks the "marked implies resident" invariant.
- SharedMemory.SharedMemoryManager.constructor: starts from the `reset` state. The source's constructor fills the free list with `True` values (line 39), which `add_to_dictionary` would pop as slot 1.
- SharedMemory.SharedMemoryManager.constructor: requires positive `blocks_per_sm` and `num_threads`, where the source would divide by zero. Sizes are natural numbers.
- The unused `twod` parameter of `get_array` is not modelled.
- Dictionary hash order is replaced by ascending slot order.
- Default arguments are not modelled. Every parameter is explicit: `blocks_per_sm=8`, `num_threads=64` and `L1_PREFERRED=True` (line 31), `lang='cuda'` (line 12), `indent=4` (line 76), and `indent=2`, `load=True` and `estimated_usage=None` (line 80).
- SharedMemory.SharedMemoryManager.AddToDictionary: requires the value not to be already resident as an object. Its only caller in the source checks this, and the class invariant needs it.
- SharedMemory.SharedMemoryManager.LoadIntoShared: requires at least one estimate per requested variable. With fewer, the source raises `IndexError` in the sort, after the ageing and marking steps have already changed state.
- SharedMemory.SharedMemoryManager.LoadIntoShared: takes the indentation as a natural number. In Python, a negative count of blanks yields the empty string.
- SharedMemory.SharedMemoryManager.InitLine: takes the indentation as a natural number, for the same reason.
- SharedMemory.SharedMemoryManager.LoadIntoShared: references held by callers are modelled as shared `Variable` objects, but the model proves nothing about aliasing between the requested variables and other callers' references.
- SharedMemory.SharedMemoryManager.GetIndex: returns the slot only. The resident the source also returns is `sharedDict[slot]`.
