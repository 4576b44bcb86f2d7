/**
 * PrintSpeciesVisitor: writes each species of a genetic network into the
 * SBML document, in the compartment its id names, and gives spastic and
 * diffusible-constitutive species a constitutive production reaction. Under
 * complex abstraction, a complex that may be abstracted away is removed from
 * the model instead.
 */
module PrintSpecies {
  import opened Wrappers
  import opened SbmlDocuments
  import opened Networks
  import CompartmentLookup
  import JavaText

  const CONSTITUTIVE_PREFIX: string := "Constitutive_production_"

  /** checkCompartments: the default compartment when no compartment map was given, else the shared lookup. */
  function CompartmentFor(compartments: Option<seq<string>>, default: string, id: string): string
  {
    if compartments.None? then default else CompartmentLookup.CompartmentOf(id, compartments.value, default)
  }

  /** The compartment is the default, or a key of the compartment map; without a map or a `__` in the id it is the default. */
  lemma CompartmentForSpec(compartments: Option<seq<string>>, default: string, id: string)
    ensures compartments.None? ==> CompartmentFor(compartments, default, id) == default
    ensures !JavaText.Contains(id, CompartmentLookup.SEPARATOR) ==> CompartmentFor(compartments, default, id) == default
    ensures CompartmentFor(compartments, default, id) == default
            || (compartments.Some? && CompartmentFor(compartments, default, id) in compartments.value)
  {
    if compartments.Some? {
      CompartmentLookup.CompartmentOfSpec(id, compartments.value, default);
    }
  }

  /** visitComplex prints a complex unless abstraction is on and the complex is abstractable or sequester-abstractable. */
  predicate PrintsComplex(complexAbstraction: bool, info: SpeciesInfo)
  {
    !complexAbstraction || (!info.abstractable && !info.sequesterAbstractable)
  }

  /** The species a visit adds; a complex is added without its name. */
  function PrintedSpecies(info: SpeciesInfo, compartment: string): Species
  {
    Species(info.id, if info.kind == ComplexKind then None else Some(info.name), compartment,
            info.initialAmount, info.initialConcentration, true, info.kind == ConstantKind)
  }

  /** The constitutive production reaction of a spastic or diffusible-constitutive species. */
  function ConstitutiveReaction(id: string, compartment: string, stoichiometry: real, ocr: real): Reaction
  {
    Reaction(CONSTITUTIVE_PREFIX + id, compartment, false, false, [], [SpeciesReference(id, stoichiometry)], [],
             KineticLaw([Parameter("kp", ocr, Unspecified)], "kp"))
  }

  predicate HasConstitutiveReaction(kind: SpeciesKind)
  {
    kind == SpasticKind || kind == DiffusibleConstitutiveKind
  }

  /** What one visit does to the document. */
  datatype Outcome = Outcome(added: Option<Species>, reaction: Option<Reaction>, removed: Option<string>)

  function VisitOutcome(info: SpeciesInfo, compartment: string, complexAbstraction: bool,
                        stoichiometry: real, ocr: real): Outcome
  {
    match info.kind
    case OtherKind => Outcome(None, None, None)
    case ComplexKind =>
      if PrintsComplex(complexAbstraction, info) then Outcome(Some(PrintedSpecies(info, compartment)), None, None)
      else Outcome(None, None, Some(info.id))
    case _ =>
      Outcome(Some(PrintedSpecies(info, compartment)),
              if HasConstitutiveReaction(info.kind) then Some(ConstitutiveReaction(info.id, compartment, stoichiometry, ocr))
              else None,
              None)
  }

  function AsSeq<T>(o: Option<T>): seq<T>
  {
    if o.Some? then [o.value] else []
  }

  /** The document after a visit with this outcome. */
  function Apply(c: Contents, o: Outcome): Contents
  {
    Contents((if o.removed.Some? then WithoutSpecies(c.species, o.removed.value) else c.species) + AsSeq(o.added),
             c.reactions + AsSeq(o.reaction))
  }

  /**
   * What a visit promises: a complex is removed exactly when it is not
   * printed; every other species except those reaching `visitSpecies` is
   * added with substance units only, in the given compartment, with its
   * initial amount and concentration, a boundary condition exactly when it
   * is constant, and a name unless it is a complex; exactly the spastic and
   * diffusible-constitutive species get an irreversible, non-fast reaction
   * `Constitutive_production_<id>` producing the species at rate `kp`.
   */
  lemma VisitOutcomeSpec(info: SpeciesInfo, compartment: string, complexAbstraction: bool, stoichiometry: real, ocr: real)
    ensures var o := VisitOutcome(info, compartment, complexAbstraction, stoichiometry, ocr);
      && (o.removed.Some? <==> info.kind == ComplexKind && !PrintsComplex(complexAbstraction, info))
      && (o.removed.Some? ==> o.removed.value == info.id && o.added.None? && o.reaction.None?)
      && (o.added.Some? <==> info.kind != OtherKind && o.removed.None?)
      && (o.added.Some? ==>
            && o.added.value.id == info.id
            && o.added.value.compartment == compartment
            && o.added.value.hasOnlySubstanceUnits
            && (o.added.value.boundaryCondition <==> info.kind == ConstantKind)
            && (o.added.value.name.None? <==> info.kind == ComplexKind)
            && o.added.value.initialAmount == info.initialAmount
            && o.added.value.initialConcentration == info.initialConcentration)
      && (o.reaction.Some? <==> HasConstitutiveReaction(info.kind))
      && (o.reaction.Some? ==>
            && o.reaction.value.id == CONSTITUTIVE_PREFIX + info.id
            && o.reaction.value.compartment == compartment
            && !o.reaction.value.reversible && !o.reaction.value.fast
            && o.reaction.value.reactants == []
            && o.reaction.value.products == [SpeciesReference(info.id, stoichiometry)]
            && o.reaction.value.law.math == "kp"
            && o.reaction.value.law.parameters == [Parameter("kp", ocr, Unspecified)])
  {
  }

  /** The document after visiting `infos` in order, each in the compartment its id names. */
  function RunContents(c: Contents, infos: seq<SpeciesInfo>, compartments: Option<seq<string>>, default: string,
                       complexAbstraction: bool, stoichiometry: real, ocr: real): Contents
  {
    if infos == [] then c
    else
      var last := infos[|infos| - 1];
      Apply(RunContents(c, infos[..|infos| - 1], compartments, default, complexAbstraction, stoichiometry, ocr),
            VisitOutcome(last, CompartmentFor(compartments, default, last.id), complexAbstraction, stoichiometry, ocr))
  }

  /** The constitutive reactions of `infos`, in order. */
  function ConstitutiveReactions(infos: seq<SpeciesInfo>, compartments: Option<seq<string>>, default: string,
                                 stoichiometry: real, ocr: real): seq<Reaction>
  {
    if infos == [] then []
    else
      var last := infos[|infos| - 1];
      ConstitutiveReactions(infos[..|infos| - 1], compartments, default, stoichiometry, ocr)
      + (if HasConstitutiveReaction(last.kind)
         then [ConstitutiveReaction(last.id, CompartmentFor(compartments, default, last.id), stoichiometry, ocr)]
         else [])
  }

  /** A run leaves existing reactions alone and appends exactly the constitutive reactions, in species order. */
  lemma {:induction false} RunReactions(c: Contents, infos: seq<SpeciesInfo>, compartments: Option<seq<string>>,
                                        default: string, complexAbstraction: bool, stoichiometry: real, ocr: real)
    ensures RunContents(c, infos, compartments, default, complexAbstraction, stoichiometry, ocr).reactions
            == c.reactions + ConstitutiveReactions(infos, compartments, default, stoichiometry, ocr)
  {
    if infos != [] {
      var last := infos[|infos| - 1];
      RunReactions(c, infos[..|infos| - 1], compartments, default, complexAbstraction, stoichiometry, ocr);
      VisitOutcomeSpec(last, CompartmentFor(compartments, default, last.id), complexAbstraction, stoichiometry, ocr);
    }
  }

  /** Every species a run leaves in the document has substance units only, if every one before it had. */
  lemma {:induction false} RunKeepsSubstanceUnits(c: Contents, infos: seq<SpeciesInfo>, compartments: Option<seq<string>>,
                                                  default: string, complexAbstraction: bool, stoichiometry: real, ocr: real)
    requires forall s :: s in c.species ==> s.hasOnlySubstanceUnits
    ensures forall s :: s in RunContents(c, infos, compartments, default, complexAbstraction, stoichiometry, ocr).species
                        ==> s.hasOnlySubstanceUnits
  {
    if infos != [] {
      var last := infos[|infos| - 1];
      var prev := RunContents(c, infos[..|infos| - 1], compartments, default, complexAbstraction, stoichiometry, ocr);
      RunKeepsSubstanceUnits(c, infos[..|infos| - 1], compartments, default, complexAbstraction, stoichiometry, ocr);
      var o := VisitOutcome(last, CompartmentFor(compartments, default, last.id), complexAbstraction, stoichiometry, ocr);
      VisitOutcomeSpec(last, CompartmentFor(compartments, default, last.id), complexAbstraction, stoichiometry, ocr);
      if o.removed.Some? {
        WithoutSpeciesSpec(prev.species, o.removed.value);
      }
    }
  }

  class PrintSpeciesVisitor {
    const document: Document
    /** The network's species, in the map's iteration order. */
    const species: seq<SpeciesInfo>
    /** The compartment map's keys in iteration order, or None for a null map. */
    const compartments: Option<seq<string>>
    const complexAbstraction: bool
    /** The parsed STOICHIOMETRY and OCR parameters. */
    const stoichiometry: real
    const ocr: real
    var amount: real
    var concentration: real

    constructor (document: Document, species: seq<SpeciesInfo>, compartments: Option<seq<string>>,
                 complexAbstraction: bool, stoichiometry: real, ocr: real)
      ensures this.document == document && this.species == species && this.compartments == compartments
      ensures this.complexAbstraction == complexAbstraction
      ensures this.stoichiometry == stoichiometry && this.ocr == ocr
    {
      this.document := document;
      this.species := species;
      this.compartments := compartments;
      this.complexAbstraction := complexAbstraction;
      this.stoichiometry := stoichiometry;
      this.ocr := ocr;
    }

    /** The document's first compartment, which getCompartment(0) needs to exist. */
    predicate HasDefault()
      reads document
    {
      |document.compartments| > 0
    }

    function Default(): string
      requires HasDefault()
      reads document
    {
      document.compartments[0]
    }

    method LoadValues(info: SpeciesInfo)
      modifies this
      ensures amount == info.initialAmount && concentration == info.initialConcentration
    {
      amount := info.initialAmount;
      concentration := info.initialConcentration;
    }

    method CheckCompartments(id: string) returns (c: string)
      requires HasDefault()
      ensures c == CompartmentFor(compartments, Default(), id)
    {
      c := Default();
      if compartments.Some? {
        c := CompartmentLookup.CheckCompartments(id, compartments.value, c);
      }
    }

    /** visitComplex. */
    method VisitComplex(info: SpeciesInfo)
      requires HasDefault() && info.kind == ComplexKind
      modifies this, document
      ensures document.Snapshot() == Apply(old(document.Snapshot()),
                VisitOutcome(info, CompartmentFor(compartments, Default(), info.id), complexAbstraction, stoichiometry, ocr))
    {
      if PrintsComplex(complexAbstraction, info) {
        LoadValues(info);
        var compartment := CheckCompartments(info.id);
        document.AddSpecies(Species(info.id, None, compartment, amount, concentration, true, false));
      } else {
        document.RemoveSpecies(info.id);
      }
    }

    /** visitBaseSpecies, visitConstantSpecies and visitDiffusibleSpecies, which differ only in the boundary condition. */
    method VisitPlainSpecies(info: SpeciesInfo)
      requires HasDefault() && info.kind in {BaseKind, ConstantKind, DiffusibleKind}
      modifies this, document
      ensures document.Snapshot() == Apply(old(document.Snapshot()),
                VisitOutcome(info, CompartmentFor(compartments, Default(), info.id), complexAbstraction, stoichiometry, ocr))
    {
      LoadValues(info);
      var compartment := CheckCompartments(info.id);
      var s := Species(info.id, Some(info.name), compartment, amount, concentration, true, info.kind == ConstantKind);
      document.AddSpecies(s);
    }

    /** visitSpasticSpecies and visitDiffusibleConstitutiveSpecies: the species and its constitutive production. */
    method VisitConstitutiveSpecies(info: SpeciesInfo)
      requires HasDefault() && HasConstitutiveReaction(info.kind)
      modifies this, document
      ensures document.Snapshot() == Apply(old(document.Snapshot()),
                VisitOutcome(info, CompartmentFor(compartments, Default(), info.id), complexAbstraction, stoichiometry, ocr))
    {
      LoadValues(info);
      var compartment := CheckCompartments(info.id);
      var s := Species(info.id, Some(info.name), compartment, amount, concentration, true, false);
      document.AddSpecies(s);
      var law := KineticLaw([Parameter("kp", ocr, Unspecified)], "kp");
      var r := Reaction(CONSTITUTIVE_PREFIX + s.id, compartment, false, false, [], [SpeciesReference(s.id, stoichiometry)], [], law);
      document.AddReaction(r);
    }

    /** The species' accept: the visit method for its kind. */
    method Accept(info: SpeciesInfo)
      requires HasDefault()
      modifies this, document
      ensures document.Snapshot() == Apply(old(document.Snapshot()),
                VisitOutcome(info, CompartmentFor(compartments, Default(), info.id), complexAbstraction, stoichiometry, ocr))
    {
      match info.kind
      case ComplexKind => VisitComplex(info);
      case SpasticKind => VisitConstitutiveSpecies(info);
      case DiffusibleConstitutiveKind => VisitConstitutiveSpecies(info);
      case OtherKind =>
      case _ => VisitPlainSpecies(info);
    }

    /** run: visits every species in iteration order. */
    method Run()
      requires HasDefault()
      modifies this, document
      ensures document.Snapshot() == RunContents(old(document.Snapshot()), species, compartments, Default(),
                                                 complexAbstraction, stoichiometry, ocr)
    {
      var i := 0;
      while i < |species|
        invariant 0 <= i <= |species|
        invariant document.Snapshot() == RunContents(old(document.Snapshot()), species[..i], compartments, Default(),
                                                     complexAbstraction, stoichiometry, ocr)
      {
        Accept(species[i]);
        assert species[..i + 1][..i] == species[..i];
        i := i + 1;
      }
      assert species[..i] == species;
    }
  }
}
