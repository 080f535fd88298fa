/**
 * The `variable` record of pyjac/core/shared_memory.py: a reference to a
 * generated-code variable (a base name with an optional array index) that the
 * allocator may cache in a shared-memory slot.
 */
module SharedVariable {
  import opened Optional

  /**
   * The external array renderer `utils.get_array(lang, base, index)`; its
   * output format belongs to another file and is taken as a parameter.
   */
  type Renderer = (string, string, int) -> string

  /** `to_string` of a reference: a scalar renders as its bare name. */
  function Render(render: Renderer, lang: string, base: string, index: Option<int>): (r: string)
    ensures index.None? ==> r == base
    ensures index.Some? ==> r == render(lang, base, index.value)
  {
    if index.None? then base else render(lang, base, index.value)
  }

  class Variable {
    const base: string
    const index: Option<int>
    const lang: string
    /** Number of load points since this variable was last used. */
    var lastUseCount: nat

    constructor (base: string, index: Option<int>, lang: string)
      ensures this.base == base && this.index == index && this.lang == lang
      ensures lastUseCount == 0
    {
      this.base := base;
      this.index := index;
      this.lang := lang;
      lastUseCount := 0;
    }

    /**
     * `self == other` with this variable on the left: a variable without an
     * index matches every variable of the same base name, one with an index
     * only the same base name with the same index.
     */
    predicate Matches(base: string, index: Option<int>)
      ensures Matches(base, index) ==> this.base == base
      ensures this.base == base && this.index == index ==> Matches(base, index)
      ensures this.index.None? && this.base == base ==> Matches(base, index)
      ensures this.index.Some? && Matches(base, index) ==> index == this.index
    {
      if this.index.None? then this.base == base
      else this.base == base && this.index == index
    }

    /** `self == other`: only variables of the same base name are equal, and always those of the same key. */
    predicate Eq(other: Variable)
      ensures Eq(other) ==> base == other.base
      ensures base == other.base && index == other.index ==> Eq(other)
      ensures index.Some? && Eq(other) ==> index == other.index
    {
      Matches(other.base, other.index)
    }

    /** Records a use: the variable has been idle for zero load points. */
    method Reset()
      modifies this
      ensures lastUseCount == 0
    {
      lastUseCount := 0;
    }

    /** Ages the variable by one load point. */
    method Update()
      modifies this
      ensures lastUseCount == old(lastUseCount) + 1
    {
      lastUseCount := lastUseCount + 1;
    }

    function ToString(render: Renderer): (r: string)
      ensures r == Render(render, lang, base, index)
    {
      Render(render, lang, base, index)
    }
  }

  /** Same base name and same index: the two variables name the same storage. */
  predicate SameKey(a: Variable, b: Variable)
  {
    a.base == b.base && a.index == b.index
  }

  /**
   * Equality holds exactly for the same base name when the left operand has
   * no index, and for the same base name and index otherwise. So it is
   * reflexive, holds in both directions exactly for the same key, and is
   * lopsided when only the left operand lacks an index.
   */
  lemma EqProperties(a: Variable, b: Variable)
    ensures a.Eq(b) <==> a.base == b.base && (a.index.None? || a.index == b.index)
    ensures a.Eq(a)
    ensures a.Eq(b) && b.Eq(a) <==> SameKey(a, b)
    ensures a.index.None? && b.index.Some? && a.base == b.base ==> a.Eq(b) && !b.Eq(a)
  {
  }

  /** `v in vs` for a list of variables: some element equals v, v on the left. */
  predicate InList(v: Variable, vs: seq<Variable>)
  {
    exists i :: 0 <= i < |vs| && v.Eq(vs[i])
  }

  /** `v in d.itervalues()`: v equals some resident, v on the left. */
  predicate Resident(d: map<nat, Variable>, v: Variable)
  {
    exists s :: s in d && v.Eq(d[s])
  }

  /** An object that sits in some slot is resident under `Resident`. */
  lemma ResidentObject(d: map<nat, Variable>, v: Variable)
    requires v in d.Values
    ensures Resident(d, v)
  {
    var s :| s in d && d[s] == v;
    assert v.Eq(d[s]);
  }
}
