/**
 * The part of an SBML document the print visitors write to: species and
 * reactions with their kinetic laws, and the ids of the model's
 * compartments. Adding appends at the end; removing a species drops every
 * species with that id.
 */
module SbmlDocuments {
  import opened Wrappers

  /** Units of a kinetic-law parameter: `getMoleTimeParameter(n)`, `getMoleParameter(n)`, "dimensionless", or none given. */
  datatype Units = Dimensionless | MoleTime(order: nat) | Mole(order: nat) | Unspecified

  datatype Parameter = Parameter(id: string, value: real, units: Units)

  datatype SpeciesReference = SpeciesReference(species: string, stoichiometry: real)

  /** A kinetic law: its (local) parameters in the order added, and its formula as text. */
  datatype KineticLaw = KineticLaw(parameters: seq<Parameter>, math: string)

  datatype Reaction = Reaction(
    id: string,
    compartment: string,
    reversible: bool,
    fast: bool,
    reactants: seq<SpeciesReference>,
    products: seq<SpeciesReference>,
    modifiers: seq<string>,
    law: KineticLaw)

  datatype Species = Species(
    id: string,
    name: Option<string>,
    compartment: string,
    initialAmount: real,
    initialConcentration: real,
    hasOnlySubstanceUnits: bool,
    boundaryCondition: bool)

  /** What a document holds, as a value. */
  datatype Contents = Contents(species: seq<Species>, reactions: seq<Reaction>)

  /** The species list once every species with id `id` is removed. */
  function WithoutSpecies(ss: seq<Species>, id: string): (r: seq<Species>)
  {
    if ss == [] then []
    else if ss[0].id == id then WithoutSpecies(ss[1..], id)
    else [ss[0]] + WithoutSpecies(ss[1..], id)
  }

  /** Removal keeps exactly the species with another id, and only those. */
  lemma {:induction false} WithoutSpeciesSpec(ss: seq<Species>, id: string)
    ensures forall s :: s in WithoutSpecies(ss, id) <==> s in ss && s.id != id
    ensures |WithoutSpecies(ss, id)| <= |ss|
  {
    if ss != [] {
      WithoutSpeciesSpec(ss[1..], id);
      assert ss == [ss[0]] + ss[1..];
    }
  }

  class Document {
    /** Ids of the model's compartments in order; the first is the default compartment. */
    const compartments: seq<string>
    var species: seq<Species>
    var reactions: seq<Reaction>

    constructor (compartments: seq<string>, species: seq<Species>, reactions: seq<Reaction>)
      ensures this.compartments == compartments && this.species == species && this.reactions == reactions
    {
      this.compartments := compartments;
      this.species := species;
      this.reactions := reactions;
    }

    function Snapshot(): Contents
      reads this
    {
      Contents(species, reactions)
    }

    /** Utility.addSpecies. */
    method AddSpecies(s: Species)
      modifies this
      ensures species == old(species) + [s] && reactions == old(reactions)
    {
      species := species + [s];
    }

    /** Utility.addReaction. */
    method AddReaction(r: Reaction)
      modifies this
      ensures reactions == old(reactions) + [r] && species == old(species)
    {
      reactions := reactions + [r];
    }

    /** Model.removeSpecies(id). */
    method RemoveSpecies(id: string)
      modifies this
      ensures species == WithoutSpecies(old(species), id) && reactions == old(reactions)
    {
      species := WithoutSpecies(species, id);
    }
  }
}

/** The genetic-network entities the print visitors read. */
module Networks {
  /** Which `visit*` method a species' `accept` calls; `OtherKind` reaches `visitSpecies`. */
  datatype SpeciesKind = BaseKind | ComplexKind | ConstantKind | SpasticKind | DiffusibleKind
                       | DiffusibleConstitutiveKind | OtherKind

  datatype SpeciesInfo = SpeciesInfo(
    id: string,
    name: string,
    kind: SpeciesKind,
    abstractable: bool,
    sequesterAbstractable: bool,
    sequesterable: bool,
    initialAmount: real,
    initialConcentration: real,
    kc: seq<real>)

  /** A part of a complex and its cooperativity. */
  datatype Influence = Influence(input: string, coop: real)

  /** A promoter: its activators, the ids of its outputs, its stoichiometry and activated rate constant. */
  datatype Promoter = Promoter(id: string, activators: seq<SpeciesInfo>, outputs: seq<string>, stoich: real, kact: real)
}
