/**
 * The compartment lookup the species and complex print visitors share: a
 * species id such as `cell__sub__S` is cut back one `__`-separated suffix at
 * a time, and the first compartment name that equals the remaining prefix,
 * or whose own name minus its last `__` suffix equals it, is the species'
 * compartment; with no match the model's first compartment is used.
 * Compartment names are examined in the compartment map's iteration order.
 */
module CompartmentLookup {
  import opened Wrappers
  import opened JavaText

  const SEPARATOR: string := "__"

  /** Where a string contains the separator, its last occurrence lies inside it. */
  lemma LastSeparatorFound(s: string)
    requires Contains(s, SEPARATOR)
    ensures 0 <= LastIndexOf(s, SEPARATOR) <= |s| - |SEPARATOR|
  {
    var i := IndexOf(s, SEPARATOR);
    assert OccursAt(s, SEPARATOR, i);
  }

  /** `s` up to its last `__`: one suffix cut off. */
  function StripLast(s: string): (r: string)
    requires Contains(s, SEPARATOR)
    ensures |r| + 2 <= |s| && r == s[..|r|]
  {
    LastSeparatorFound(s);
    s[..LastIndexOf(s, SEPARATOR)]
  }

  /** The prefixes the lookup tries, longest first: `s` cut back by one suffix, then by two, and so on. */
  function Strips(s: string): (r: seq<string>)
    decreases |s|
  {
    if Contains(s, SEPARATOR) then [StripLast(s)] + Strips(StripLast(s)) else []
  }

  /** A compartment name fits a prefix: it equals it, or equals it once its own last suffix is cut off. */
  predicate Fits(name: string, component: string)
  {
    name == component || (Contains(name, SEPARATOR) && StripLast(name) == component)
  }

  /** The first name from index `i` on that fits `component`. */
  function FirstFitFrom(names: seq<string>, component: string, i: nat): Option<string>
    decreases |names| - i
  {
    if i >= |names| then None
    else if Fits(names[i], component) then Some(names[i])
    else FirstFitFrom(names, component, i + 1)
  }

  /** FirstFitFrom finds the first fitting name at or after `i`, or reports that none fits. */
  lemma {:induction false} FirstFitFromSpec(names: seq<string>, component: string, i: nat)
    ensures FirstFitFrom(names, component, i).Some? ==>
              exists j :: i <= j < |names| && names[j] == FirstFitFrom(names, component, i).value
                          && Fits(names[j], component) && forall l :: i <= l < j ==> !Fits(names[l], component)
    ensures FirstFitFrom(names, component, i).None? <==> forall l :: i <= l < |names| ==> !Fits(names[l], component)
    decreases |names| - i
  {
    if i < |names| && !Fits(names[i], component) {
      FirstFitFromSpec(names, component, i + 1);
    }
  }

  /** The name the lookup finds for `species`, if any: the first fit for the longest prefix that has one. */
  function Found(species: string, names: seq<string>): Option<string>
    decreases |species|
  {
    if !Contains(species, SEPARATOR) then None
    else
      var component := StripLast(species);
      var f := FirstFitFrom(names, component, 0);
      if f.Some? then f else Found(component, names)
  }

  /** checkCompartments: the name found, or the model's first compartment. */
  function CompartmentOf(species: string, names: seq<string>, default: string): string
  {
    var f := Found(species, names);
    if f.Some? then f.value else default
  }

  /**
   * What the lookup finds: nothing exactly when no name fits any prefix;
   * otherwise a compartment name that fits the j-th prefix, where no name
   * fits an earlier (longer) one.
   */
  lemma {:induction false} FoundSpec(species: string, names: seq<string>)
    ensures Found(species, names).None? <==>
              forall j, l :: 0 <= j < |Strips(species)| && 0 <= l < |names| ==> !Fits(names[l], Strips(species)[j])
    ensures Found(species, names).Some? ==>
              Found(species, names).value in names
              && exists j :: 0 <= j < |Strips(species)| && Fits(Found(species, names).value, Strips(species)[j])
                             && forall i, l :: 0 <= i < j && 0 <= l < |names| ==> !Fits(names[l], Strips(species)[i])
    decreases |species|
  {
    if Contains(species, SEPARATOR) {
      var component := StripLast(species);
      var st := Strips(species);
      assert st == [component] + Strips(component);
      FirstFitFromSpec(names, component, 0);
      var f := FirstFitFrom(names, component, 0);
      if f.Some? {
        assert Fits(f.value, st[0]);
      } else {
        FoundSpec(component, names);
        var g := Found(component, names);
        if g.Some? {
          var j :| 0 <= j < |Strips(component)| && Fits(g.value, Strips(component)[j])
                   && forall i, l :: 0 <= i < j && 0 <= l < |names| ==> !Fits(names[l], Strips(component)[i]);
          assert st[j + 1] == Strips(component)[j];
          forall i, l | 0 <= i < j + 1 && 0 <= l < |names|
            ensures !Fits(names[l], st[i])
          {
            if i > 0 {
              assert st[i] == Strips(component)[i - 1];
            }
          }
        } else {
          forall j, l | 0 <= j < |st| && 0 <= l < |names|
            ensures !Fits(names[l], st[j])
          {
            if j > 0 {
              assert st[j] == Strips(component)[j - 1];
            }
          }
        }
      }
    }
  }

  /** An id without `__` stays in the default compartment; otherwise the result is the default or one of the names. */
  lemma CompartmentOfSpec(species: string, names: seq<string>, default: string)
    ensures !Contains(species, SEPARATOR) ==> CompartmentOf(species, names, default) == default
    ensures CompartmentOf(species, names, default) == default || CompartmentOf(species, names, default) in names
  {
    FoundSpec(species, names);
  }

  /** The loops of checkCompartments over the compartment names in iteration order. */
  method CheckCompartments(species: string, names: seq<string>, default: string) returns (r: string)
    ensures r == CompartmentOf(species, names, default)
  {
    var component := species;
    while Contains(component, SEPARATOR)
      invariant Found(component, names) == Found(species, names)
      decreases |component|
    {
      LastSeparatorFound(component);
      component := component[..LastIndexOf(component, SEPARATOR)];
      var k := 0;
      while k < |names|
        invariant 0 <= k <= |names|
        invariant FirstFitFrom(names, component, 0) == FirstFitFrom(names, component, k)
      {
        if names[k] == component {
          return names[k];
        } else if Contains(names[k], SEPARATOR) && names[k][..LastIndexOf(names[k], SEPARATOR)] == component {
          return names[k];
        }
        k := k + 1;
      }
    }
    return default;
  }
}
