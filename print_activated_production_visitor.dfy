/**
 * PrintActivatedProductionVisitor: for each activator of a promoter, an
 * irreversible production reaction of the promoter's outputs, catalysed by
 * the promoter-activator-RNAP complex `<promoter>_<activator>_RNAP` at the
 * activated rate Kact.
 */
module PrintActivatedProduction {
  import opened SbmlDocuments
  import opened Networks
  import JavaText

  const SEPARATOR: string := "__"
  const REACTION_PREFIX: string := "R_act_production_"
  const RNAP_SUFFIX: string := "_RNAP"

  /** The activator's name: the second `__`-separated piece of its id when there is one, else the whole id. */
  function ActivatorName(id: string): string
  {
    var pieces := JavaText.Split(id, SEPARATOR);
    if |pieces| > 1 then pieces[1] else id
  }

  /** The first `__` in `a + "__" + x` is right after `a` when `a` has no underscore. */
  lemma FirstSeparator(a: string, x: string)
    requires '_' !in a
    ensures JavaText.IndexOf(a + SEPARATOR + x, SEPARATOR) == |a|
  {
    var s := a + SEPARATOR + x;
    assert s[|a|..|a| + 2] == SEPARATOR;
    assert JavaText.OccursAt(s, SEPARATOR, |a|);
    forall i | 0 <= i < |a|
      ensures !JavaText.OccursAt(s, SEPARATOR, i)
    {
      assert s[i] == a[i];
      if i + 2 <= |s| {
        assert s[i..i + 2][0] == s[i];
      }
    }
  }

  /** Splitting `a + "__" + x` gives `a`, then the pieces of `x`. */
  lemma RawSplitAfter(a: string, x: string)
    requires '_' !in a
    ensures JavaText.RawSplit(a + SEPARATOR + x, SEPARATOR) == [a] + JavaText.RawSplit(x, SEPARATOR)
  {
    var s := a + SEPARATOR + x;
    FirstSeparator(a, x);
    assert s[..|a|] == a;
    assert s[|a| + 2..] == x;
  }

  /** A piece without underscores has no separator in it. */
  lemma NoSeparator(b: string)
    requires '_' !in b
    ensures JavaText.IndexOf(b, SEPARATOR) < 0
  {
    forall i | 0 <= i && i + 2 <= |b|
      ensures !JavaText.OccursAt(b, SEPARATOR, i)
    {
      assert b[i..i + 2][0] == b[i];
    }
  }

  /**
   * The activator name of an id without `__` is the id; of a compartment-
   * qualified id `a__b` or `a__b__rest` (a and b without underscores, b not
   * empty) it is `b`.
   */
  lemma ActivatorNameSpec(id: string, a: string, b: string, rest: string)
    ensures !JavaText.Contains(id, SEPARATOR) ==> ActivatorName(id) == id
    ensures '_' !in a && '_' !in b && b != "" ==>
              ActivatorName(a + SEPARATOR + b) == b && ActivatorName(a + SEPARATOR + b + SEPARATOR + rest) == b
  {
    if '_' !in a && '_' !in b && b != "" {
      var s1 := a + SEPARATOR + b;
      RawSplitAfter(a, b);
      NoSeparator(b);
      FirstSeparator(a, b);
      var xs1 := JavaText.RawSplit(s1, SEPARATOR);
      assert xs1 == [a, b];
      var t1 := JavaText.TrimTrailingEmpty(xs1);
      assert xs1[1] != "";
      assert t1[1] == xs1[1];

      var s2 := a + SEPARATOR + b + SEPARATOR + rest;
      assert s2 == a + SEPARATOR + (b + SEPARATOR + rest);
      RawSplitAfter(a, b + SEPARATOR + rest);
      RawSplitAfter(b, rest);
      FirstSeparator(a, b + SEPARATOR + rest);
      var xs2 := JavaText.RawSplit(s2, SEPARATOR);
      assert xs2[0] == a && xs2[1] == b;
      var t2 := JavaText.TrimTrailingEmpty(xs2);
      assert xs2[1] != "";
      assert t2[1] == xs2[1];
    }
  }

  function SpeciesName(promoterId: string, activator: string): string
  {
    promoterId + "_" + activator + RNAP_SUFFIX
  }

  function ReactionName(promoterId: string, activator: string): string
  {
    REACTION_PREFIX + promoterId + "_" + activator
  }

  /** Different activators of a promoter get different complex names and different reaction names. */
  lemma NamesInjective(promoterId: string, a1: string, a2: string)
    ensures SpeciesName(promoterId, a1) == SpeciesName(promoterId, a2) ==> a1 == a2
    ensures ReactionName(promoterId, a1) == ReactionName(promoterId, a2) ==> a1 == a2
  {
    var n := |promoterId| + 1;
    if SpeciesName(promoterId, a1) == SpeciesName(promoterId, a2) {
      var s1 := SpeciesName(promoterId, a1);
      var s2 := SpeciesName(promoterId, a2);
      assert |a1| == |a2|;
      assert s1[n..n + |a1|] == a1;
      assert s2[n..n + |a2|] == a2;
    }
    var m := |REACTION_PREFIX| + |promoterId| + 1;
    if ReactionName(promoterId, a1) == ReactionName(promoterId, a2) {
      assert ReactionName(promoterId, a1)[m..] == a1;
      assert ReactionName(promoterId, a2)[m..] == a2;
    }
  }

  /** One product per output, each with the promoter's stoichiometry. */
  function Products(outputs: seq<string>, stoc: real): (r: seq<SpeciesReference>)
  {
    if outputs == [] then [] else Products(outputs[..|outputs| - 1], stoc) + [SpeciesReference(outputs[|outputs| - 1], stoc)]
  }

  /** The products name exactly the outputs, in order, each with stoichiometry `stoc`. */
  lemma {:induction false} ProductsSpec(outputs: seq<string>, stoc: real)
    ensures |Products(outputs, stoc)| == |outputs|
    ensures forall i :: 0 <= i < |outputs| ==> Products(outputs, stoc)[i] == SpeciesReference(outputs[i], stoc)
  {
    if outputs != [] {
      ProductsSpec(outputs[..|outputs| - 1], stoc);
    }
  }

  /** The reaction the `visit*` methods add for the current names. */
  function ActivatedReaction(p: Promoter, compartment: string, actString: string, speciesName: string, reactionName: string): Reaction
  {
    Reaction(reactionName, compartment, false, false, [], Products(p.outputs, p.stoich), [speciesName],
             KineticLaw([Parameter(actString, p.kact, MoleTime(1))], actString + "*" + speciesName))
  }

  /** The reactions run adds for `activators`, in order: one per activator whose kind has a visit method. */
  function RunReactions(p: Promoter, compartment: string, actString: string, activators: seq<SpeciesInfo>): seq<Reaction>
  {
    if activators == [] then []
    else
      var last := activators[|activators| - 1];
      RunReactions(p, compartment, actString, activators[..|activators| - 1])
      + (if last.kind == OtherKind then [] else [ActivatedFor(p, compartment, actString, last)])
  }

  /**
   * Every reaction run adds belongs to an activator with a visit method: it
   * is named after it, is catalysed by exactly its RNAP complex, produces the
   * promoter's outputs irreversibly and has law `act * complex`.
   */
  lemma {:induction false} RunReactionsSpec(p: Promoter, compartment: string, actString: string, activators: seq<SpeciesInfo>)
    ensures forall r :: r in RunReactions(p, compartment, actString, activators) ==>
              && (exists a :: a in activators && a.kind != OtherKind && r == ActivatedFor(p, compartment, actString, a))
              && r.products == Products(p.outputs, p.stoich) && !r.reversible && !r.fast && r.reactants == []
              && r.law.parameters == [Parameter(actString, p.kact, MoleTime(1))]
  {
    if activators != [] {
      var init := activators[..|activators| - 1];
      var last := activators[|activators| - 1];
      RunReactionsSpec(p, compartment, actString, init);
      assert forall a :: a in init ==> a in activators;
    }
  }

  /** Running over one more activator appends that activator's reaction, if it has one. */
  lemma RunReactionsNext(p: Promoter, compartment: string, actString: string, activators: seq<SpeciesInfo>, i: nat)
    requires i < |activators|
    ensures RunReactions(p, compartment, actString, activators[..i + 1])
            == RunReactions(p, compartment, actString, activators[..i])
               + (if activators[i].kind == OtherKind then [] else [ActivatedFor(p, compartment, actString, activators[i])])
  {
    assert activators[..i + 1][..i] == activators[..i];
  }

  /** The reaction for one activator, named after its activator name. */
  function ActivatedFor(p: Promoter, compartment: string, actString: string, a: SpeciesInfo): (r: Reaction)
    ensures r.id == ReactionName(p.id, ActivatorName(a.id))
    ensures r.modifiers == [SpeciesName(p.id, ActivatorName(a.id))]
    ensures r.law.math == actString + "*" + SpeciesName(p.id, ActivatorName(a.id))
  {
    var name := ActivatorName(a.id);
    ActivatedReaction(p, compartment, actString, SpeciesName(p.id, name), ReactionName(p.id, name))
  }

  /** The number of activators whose kind has a visit method. */
  function Visited(activators: seq<SpeciesInfo>): nat
  {
    if activators == [] then 0
    else Visited(activators[..|activators| - 1]) + (if activators[|activators| - 1].kind == OtherKind then 0 else 1)
  }

  /** There is one reaction per activator with a visit method. */
  lemma {:induction false} RunReactionsCount(p: Promoter, compartment: string, actString: string, activators: seq<SpeciesInfo>)
    ensures |RunReactions(p, compartment, actString, activators)| == Visited(activators)
  {
    if activators != [] {
      RunReactionsCount(p, compartment, actString, activators[..|activators| - 1]);
    }
  }

  class PrintActivatedProductionVisitor {
    const document: Document
    const promoter: Promoter
    const compartment: string
    /** GlobalConstants.ACTIVATED_STRING: the id of the rate parameter. */
    const actString: string
    var act: real
    var stoc: real
    var speciesName: string
    var reactionName: string

    constructor (document: Document, promoter: Promoter, compartment: string, actString: string)
      ensures this.document == document && this.promoter == promoter && this.compartment == compartment
      ensures this.actString == actString
    {
      this.document := document;
      this.promoter := promoter;
      this.compartment := compartment;
      this.actString := actString;
    }

    method LoadValues()
      modifies this
      ensures stoc == promoter.stoich && act == promoter.kact
      ensures speciesName == old(speciesName) && reactionName == old(reactionName)
    {
      stoc := promoter.stoich;
      act := promoter.kact;
    }

    /** The body shared by visitComplex, visitBaseSpecies, visitConstantSpecies, visitSpasticSpecies, visitDiffusibleSpecies and visitDiffusibleConstitutiveSpecies. */
    method AddActivatedReaction()
      modifies this, document
      ensures document.reactions
              == old(document.reactions) + [ActivatedReaction(promoter, compartment, actString, old(speciesName), old(reactionName))]
      ensures document.species == old(document.species)
      ensures speciesName == old(speciesName) && reactionName == old(reactionName)
    {
      LoadValues();
      var products: seq<SpeciesReference> := [];
      var outputs := promoter.outputs;
      var i := 0;
      while i < |outputs|
        invariant 0 <= i <= |outputs|
        invariant products == Products(outputs[..i], stoc)
      {
        products := products + [SpeciesReference(outputs[i], stoc)];
        assert outputs[..i + 1][..i] == outputs[..i];
        i := i + 1;
      }
      assert outputs[..i] == outputs;
      var law := KineticLaw([Parameter(actString, act, MoleTime(1))], actString + "*" + speciesName);
      document.AddReaction(Reaction(reactionName, compartment, false, false, [], products, [speciesName], law));
    }

    /** The species' accept: `visitSpecies` adds nothing, every other kind adds the reaction. */
    method Accept(info: SpeciesInfo)
      modifies this, document
      ensures document.reactions == old(document.reactions)
              + (if info.kind == OtherKind then []
                 else [ActivatedReaction(promoter, compartment, actString, old(speciesName), old(reactionName))])
      ensures document.species == old(document.species)
    {
      if info.kind != OtherKind {
        AddActivatedReaction();
      }
    }

    /** One turn of run's loop: names the complex and the reaction after `a`, then visits it. */
    method VisitActivator(a: SpeciesInfo)
      modifies this, document
      ensures document.reactions == old(document.reactions)
              + (if a.kind == OtherKind then [] else [ActivatedFor(promoter, compartment, actString, a)])
      ensures document.species == old(document.species)
    {
      var activator := a.id;
      var splitted := JavaText.Split(activator, SEPARATOR);
      if |splitted| > 1 {
        activator := splitted[1];
      }
      speciesName := promoter.id + "_" + activator + RNAP_SUFFIX;
      reactionName := REACTION_PREFIX + promoter.id + "_" + activator;
      Accept(a);
    }

    /** run: names the complex and the reaction after each activator in turn, then visits it. */
    method Run()
      modifies this, document
      ensures document.reactions == old(document.reactions) + RunReactions(promoter, compartment, actString, promoter.activators)
      ensures document.species == old(document.species)
    {
      var activators := promoter.activators;
      var i := 0;
      while i < |activators|
        invariant 0 <= i <= |activators|
        invariant document.reactions == old(document.reactions) + RunReactions(promoter, compartment, actString, activators[..i])
        invariant document.species == old(document.species)
      {
        RunReactionsNext(promoter, compartment, actString, activators, i);
        VisitActivator(activators[i]);
        i := i + 1;
      }
      assert activators[..i] == activators;
    }
  }
}
