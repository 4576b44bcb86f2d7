/**
 * PrintComplexVisitor: for each complex species, a reversible complexation
 * reaction that binds its parts (each with its cooperativity as
 * stoichiometry) into one molecule of the complex, with a mass-action
 * kinetic law whose forward constant depends on the total cooperativity.
 */
module PrintComplex {
  import opened SbmlDocuments
  import opened Networks
  import CompartmentLookup
  import opened JavaText

  const FORWARD_ID: string := "kf_c"
  const REVERSE_ID: string := "kr_c"

  /**
   * loadValues as (kf, kcomp, kr): two given constants are the forward and
   * reverse rates and kcomp their ratio; otherwise the one constant is both
   * kf and kcomp, with kr one.
   */
  function RateConstants(kc: seq<real>): (real, real, real)
    requires |kc| >= 1 && (|kc| == 2 ==> kc[1] != 0.0)
  {
    if |kc| == 2 then (kc[0], kc[0] / kc[1], kc[1]) else (kc[0], kc[0], 1.0)
  }

  /** kf is the first constant, and in both cases the equilibrium constant kcomp is kf / kr. */
  lemma RateConstantsSpec(kc: seq<real>)
    requires |kc| >= 1 && (|kc| == 2 ==> kc[1] != 0.0)
    ensures RateConstants(kc).0 == kc[0]
    ensures RateConstants(kc).2 != 0.0 && RateConstants(kc).1 * RateConstants(kc).2 == RateConstants(kc).0
    ensures RateConstants(kc).2 == (if |kc| == 2 then kc[1] else 1.0)
  {
  }

  /** generateLaw: the forward term minus `kr * bound`; for total cooperativity above 2 the forward constant is raised by kcomp. */
  function GenerateLaw(compExpression: string, boundExpression: string, kcompId: string, kcompIdf: string,
                       kcompIdr: string, ncSum: string, stoich: real): string
    requires stoich > 2.0 ==> |ncSum| >= 1
  {
    if stoich == 1.0 || stoich == 2.0 then
      kcompIdf + compExpression + "-" + kcompIdr + "*" + boundExpression
    else if stoich > 2.0 then
      kcompIdf + "*" + kcompId + "^" + "(" + ncSum[..|ncSum| - 1] + "-2)" + compExpression
      + "-" + kcompIdr + "*" + boundExpression
    else ""
  }

  /** The cooperativity parameter id of one part. */
  function NId(coopString: string, partId: string, complexId: string): string
  {
    coopString + "__" + partId + "_" + complexId
  }

  /** The cooperativity parameter ids of the parts, in order. */
  function NIds(infls: seq<Influence>, coopString: string, complexId: string): (r: seq<string>)
    ensures |r| == |infls|
  {
    if infls == [] then []
    else NIds(infls[..|infls| - 1], coopString, complexId) + [NId(coopString, infls[|infls| - 1].input, complexId)]
  }

  /** The total cooperativity. */
  function Stoich(infls: seq<Influence>): real
  {
    if infls == [] then 0.0 else Stoich(infls[..|infls| - 1]) + infls[|infls| - 1].coop
  }

  /** ncSum: each cooperativity id followed by `+`. */
  function NcSum(infls: seq<Influence>, coopString: string, complexId: string): (r: string)
    ensures |r| >= |infls|
  {
    if infls == [] then ""
    else NcSum(infls[..|infls| - 1], coopString, complexId) + NId(coopString, infls[|infls| - 1].input, complexId) + "+"
  }

  /** compExpression: `*(part)^nId` for each part. */
  function CompExpression(infls: seq<Influence>, coopString: string, complexId: string): string
  {
    if infls == [] then ""
    else
      var last := infls[|infls| - 1];
      CompExpression(infls[..|infls| - 1], coopString, complexId) + "*" + "(" + last.input + ")^" + NId(coopString, last.input, complexId)
  }

  /** The reactants: each part with its cooperativity. */
  function Reactants(infls: seq<Influence>): (r: seq<SpeciesReference>)
    ensures |r| == |infls|
  {
    if infls == [] then [] else Reactants(infls[..|infls| - 1]) + [SpeciesReference(infls[|infls| - 1].input, infls[|infls| - 1].coop)]
  }

  /** The dimensionless cooperativity parameters, one per part. */
  function CoopParameters(infls: seq<Influence>, coopString: string, complexId: string): (r: seq<Parameter>)
    ensures |r| == |infls|
  {
    if infls == [] then []
    else
      var last := infls[|infls| - 1];
      CoopParameters(infls[..|infls| - 1], coopString, complexId) + [Parameter(NId(coopString, last.input, complexId), last.coop, Dimensionless)]
  }

  function TotalStoichiometry(refs: seq<SpeciesReference>): real
  {
    if refs == [] then 0.0 else TotalStoichiometry(refs[..|refs| - 1]) + refs[|refs| - 1].stoichiometry
  }

  /** The complexation reaction consumes as many molecules in total as the total cooperativity. */
  lemma {:induction false} ReactantsTotal(infls: seq<Influence>)
    ensures TotalStoichiometry(Reactants(infls)) == Stoich(infls)
  {
    if infls != [] {
      ReactantsTotal(infls[..|infls| - 1]);
      assert Reactants(infls)[..|infls| - 1] == Reactants(infls[..|infls| - 1]);
    }
  }

  /** ncSum ends in `+`, and without it is the cooperativity ids joined by `+`: the sum the law's exponent uses. */
  lemma {:induction false} NcSumSpec(infls: seq<Influence>, coopString: string, complexId: string)
    requires infls != []
    ensures var s := NcSum(infls, coopString, complexId);
      |s| >= 1 && s[|s| - 1] == '+' && s[..|s| - 1] == Join(NIds(infls, coopString, complexId), "+")
  {
    var init := infls[..|infls| - 1];
    var nid := NId(coopString, infls[|infls| - 1].input, complexId);
    var ids := NIds(infls, coopString, complexId);
    assert ids[..|ids| - 1] == NIds(init, coopString, complexId);
    var s := NcSum(infls, coopString, complexId);
    assert s == NcSum(init, coopString, complexId) + nid + "+";
    assert s[..|s| - 1] == NcSum(init, coopString, complexId) + nid;
    if init != [] {
      NcSumSpec(init, coopString, complexId);
      var t := NcSum(init, coopString, complexId);
      assert t == t[..|t| - 1] + "+";
    }
  }

  /** The kinetic-law parameters after the cooperativities: kf by order, kcomp above total cooperativity 2, kr always. */
  function RateParameters(stoich: real, kcompId: string, kf: real, kcomp: real, kr: real): seq<Parameter>
  {
    (if stoich == 1.0 then [Parameter(FORWARD_ID, kf, MoleTime(1))]
     else if stoich >= 2.0 then
       [Parameter(FORWARD_ID, kf, MoleTime(2))] + (if stoich > 2.0 then [Parameter(kcompId, kcomp, Mole(2))] else [])
     else [])
    + [Parameter(REVERSE_ID, kr, MoleTime(1))]
  }

  /**
   * The rate parameters: kf first, first order at total cooperativity 1 and
   * second order from 2 on, absent otherwise; kcomp only above 2; kr last.
   */
  lemma RateParametersSpec(stoich: real, kcompId: string, kf: real, kcomp: real, kr: real)
    ensures var ps := RateParameters(stoich, kcompId, kf, kcomp, kr);
      && ps[|ps| - 1] == Parameter(REVERSE_ID, kr, MoleTime(1))
      && |ps| == 1 + (if stoich == 1.0 || stoich >= 2.0 then 1 else 0) + (if stoich > 2.0 then 1 else 0)
      && (stoich == 1.0 ==> ps[0] == Parameter(FORWARD_ID, kf, MoleTime(1)))
      && (stoich >= 2.0 ==> ps[0] == Parameter(FORWARD_ID, kf, MoleTime(2)))
      && (stoich > 2.0 ==> ps[1] == Parameter(kcompId, kcomp, Mole(2)))
  {
  }

  /** The kinetic law of a complex with these parts. */
  function ComplexLaw(infls: seq<Influence>, coopString: string, complexId: string, boundExpression: string, kcompId: string): string
  {
    GenerateLaw(CompExpression(infls, coopString, complexId), boundExpression, kcompId, FORWARD_ID, REVERSE_ID,
                NcSum(infls, coopString, complexId), Stoich(infls))
  }

  /**
   * The law is `kf_c` times the parts raised to their cooperativities minus
   * `kr_c` times the bound complex; above total cooperativity 2, kf is
   * multiplied by kcomp raised to (the sum of the cooperativities minus 2);
   * at any other total it is empty.
   */
  lemma ComplexLawSpec(infls: seq<Influence>, coopString: string, complexId: string, boundExpression: string, kcompId: string)
    ensures var law := ComplexLaw(infls, coopString, complexId, boundExpression, kcompId);
            var comp := CompExpression(infls, coopString, complexId);
      && (Stoich(infls) == 1.0 || Stoich(infls) == 2.0 ==>
            law == FORWARD_ID + comp + "-" + REVERSE_ID + "*" + boundExpression)
      && (Stoich(infls) > 2.0 ==>
            law == FORWARD_ID + "*" + kcompId + "^(" + Join(NIds(infls, coopString, complexId), "+") + "-2)" + comp
                   + "-" + REVERSE_ID + "*" + boundExpression)
      && (law == "" <==> Stoich(infls) < 1.0 || (1.0 < Stoich(infls) < 2.0))
  {
    if Stoich(infls) > 2.0 {
      NcSumSpec(infls, coopString, complexId);
    }
  }

  /**
   * The loop of visitComplex over the parts of a complex: the total
   * stoichiometry, the reactants, the cooperativity parameters, and the
   * two pieces of the law it builds.
   */
  method CollectParts(infls: seq<Influence>, coopString: string, id: string)
    returns (stoich: real, ncSum: string, compExpression: string, reactants: seq<SpeciesReference>, parameters: seq<Parameter>)
    ensures stoich == Stoich(infls) && ncSum == NcSum(infls, coopString, id)
    ensures compExpression == CompExpression(infls, coopString, id)
    ensures reactants == Reactants(infls) && parameters == CoopParameters(infls, coopString, id)
  {
    stoich := 0.0;
    ncSum := "";
    compExpression := "";
    reactants := [];
    parameters := [];
    var i := 0;
    while i < |infls|
      invariant 0 <= i <= |infls|
      invariant stoich == Stoich(infls[..i])
      invariant ncSum == NcSum(infls[..i], coopString, id)
      invariant compExpression == CompExpression(infls[..i], coopString, id)
      invariant reactants == Reactants(infls[..i])
      invariant parameters == CoopParameters(infls[..i], coopString, id)
    {
      var partId := infls[i].input;
      stoich := stoich + infls[i].coop;
      reactants := reactants + [SpeciesReference(partId, infls[i].coop)];
      var nId := coopString + "__" + partId + "_" + id;
      parameters := parameters + [Parameter(nId, infls[i].coop, Dimensionless)];
      ncSum := ncSum + nId + "+";
      compExpression := compExpression + "*" + "(" + partId + ")^" + nId;
      assert infls[..i + 1][..i] == infls[..i];
      i := i + 1;
    }
    assert infls[..i] == infls;
  }

  /** The rate-parameter part of visitComplex: appends kf, kcomp and kr as RateParameters orders them. */
  method AddRateParameters(parameters: seq<Parameter>, stoich: real, kcompId: string, kf: real, kcomp: real, kr: real)
    returns (ps: seq<Parameter>)
    ensures ps == parameters + RateParameters(stoich, kcompId, kf, kcomp, kr)
  {
    ps := parameters;
    if stoich == 1.0 {
      ps := ps + [Parameter(FORWARD_ID, kf, MoleTime(1))];
    } else if stoich >= 2.0 {
      ps := ps + [Parameter(FORWARD_ID, kf, MoleTime(2))];
      if stoich > 2.0 {
        ps := ps + [Parameter(kcompId, kcomp, Mole(2))];
      }
    }
    ps := ps + [Parameter(REVERSE_ID, kr, MoleTime(1))];
  }

  class PrintComplexVisitor {
    const document: Document
    /** The network's species, in the map's iteration order. */
    const species: seq<SpeciesInfo>
    /** The compartment map's keys, in iteration order. */
    const compartments: seq<string>
    /** The parts of each complex. */
    const complexMap: map<string, seq<Influence>>
    const complexAbstraction: bool
    /** GlobalConstants.COMPLEXATION, KCOMPLEX_STRING and COOPERATIVITY_STRING. */
    const complexation: string
    const kcompString: string
    const coopString: string
    /** sequesterSpecies(id, 0): the expression for the free part of a sequestered complex. */
    const sequestered: string -> string
    var kf: real
    var kcomp: real
    var kr: real

    constructor (document: Document, species: seq<SpeciesInfo>, compartments: seq<string>,
                 complexMap: map<string, seq<Influence>>, complexAbstraction: bool,
                 complexation: string, kcompString: string, coopString: string, sequestered: string -> string)
      ensures this.document == document && this.species == species && this.compartments == compartments
      ensures this.complexMap == complexMap && this.complexAbstraction == complexAbstraction
      ensures this.complexation == complexation && this.kcompString == kcompString && this.coopString == coopString
      ensures this.sequestered == sequestered
    {
      this.document := document;
      this.species := species;
      this.compartments := compartments;
      this.complexMap := complexMap;
      this.complexAbstraction := complexAbstraction;
      this.complexation := complexation;
      this.kcompString := kcompString;
      this.coopString := coopString;
      this.sequestered := sequestered;
    }

    predicate HasDefault()
    {
      |document.compartments| > 0
    }

    function Default(): string
      requires HasDefault()
    {
      document.compartments[0]
    }

    /** run's filter: without abstraction every species, otherwise only those neither abstractable nor sequester-abstractable. */
    predicate RunVisits(info: SpeciesInfo)
    {
      !complexAbstraction || (!info.abstractable && !info.sequesterAbstractable)
    }

    /** What visitComplex needs: the complex's parts are known and its constants load. */
    predicate Loadable(info: SpeciesInfo)
    {
      info.id in complexMap && |info.kc| >= 1 && (|info.kc| == 2 ==> info.kc[1] != 0.0)
    }

    /** The bound complex in the law: the complex, or its free part when abstraction sequesters it. */
    function BoundExpression(info: SpeciesInfo): string
    {
      if complexAbstraction && info.sequesterable then sequestered(info.id) else info.id
    }

    /** The complexation reaction visitComplex adds for `info`. */
    function ComplexReaction(info: SpeciesInfo): Reaction
      requires HasDefault() && Loadable(info)
    {
      var infls := complexMap[info.id];
      var k := RateConstants(info.kc);
      Reaction(complexation + "_" + info.id, CompartmentLookup.CompartmentOf(info.id, compartments, Default()),
               true, false, Reactants(infls), [SpeciesReference(info.id, 1.0)], [],
               KineticLaw(CoopParameters(infls, coopString, info.id) + RateParameters(Stoich(infls), kcompString, k.0, k.1, k.2),
                          ComplexLaw(infls, coopString, info.id, BoundExpression(info), kcompString)))
    }

    /** The reactions run adds for `infos`, in order. */
    function RunReactions(infos: seq<SpeciesInfo>): seq<Reaction>
      requires HasDefault()
      requires forall i :: 0 <= i < |infos| && RunVisits(infos[i]) && infos[i].kind == ComplexKind ==> Loadable(infos[i])
    {
      if infos == [] then []
      else
        var last := infos[|infos| - 1];
        RunReactions(infos[..|infos| - 1])
        + (if RunVisits(last) && last.kind == ComplexKind then [ComplexReaction(last)] else [])
    }

    method LoadValues(info: SpeciesInfo)
      requires |info.kc| >= 1 && (|info.kc| == 2 ==> info.kc[1] != 0.0)
      modifies this
      ensures (kf, kcomp, kr) == RateConstants(info.kc)
    {
      var kcompArray := info.kc;
      kf := kcompArray[0];
      if |kcompArray| == 2 {
        kcomp := kcompArray[0] / kcompArray[1];
        kr := kcompArray[1];
      } else {
        kcomp := kcompArray[0];
        kr := 1.0;
      }
    }

    /** visitComplex. */
    method VisitComplex(info: SpeciesInfo)
      requires HasDefault() && Loadable(info)
      modifies this, document
      ensures document.reactions == old(document.reactions) + [ComplexReaction(info)]
      ensures document.species == old(document.species)
    {
      LoadValues(info);
      var compartment := CompartmentLookup.CheckCompartments(info.id, compartments, Default());
      var boundExpression := info.id;
      if complexAbstraction && info.sequesterable {
        boundExpression := sequestered(info.id);
      }
      var infls := complexMap[info.id];
      var stoich, ncSum, compExpression, reactants, parameters := CollectParts(infls, coopString, info.id);
      parameters := AddRateParameters(parameters, stoich, kcompString, kf, kcomp, kr);
      if stoich > 2.0 {
        NcSumSpec(infls, coopString, info.id);
      }
      var law := GenerateLaw(compExpression, boundExpression, kcompString, FORWARD_ID, REVERSE_ID, ncSum, stoich);
      var r := Reaction(complexation + "_" + info.id, compartment, true, false, reactants,
                        [SpeciesReference(info.id, 1.0)], [], KineticLaw(parameters, law));
      assert parameters == CoopParameters(infls, coopString, info.id) + RateParameters(stoich, kcompString, kf, kcomp, kr);
      assert law == ComplexLaw(infls, coopString, info.id, BoundExpression(info), kcompString);
      assert r == ComplexReaction(info);
      document.AddReaction(r);
    }

    /** The species' accept: only complexes have a visit method here; the other kinds add nothing. */
    method Accept(info: SpeciesInfo)
      requires HasDefault() && (info.kind == ComplexKind ==> Loadable(info))
      modifies this, document
      ensures document.reactions == old(document.reactions) + (if info.kind == ComplexKind then [ComplexReaction(info)] else [])
      ensures document.species == old(document.species)
    {
      if info.kind == ComplexKind {
        VisitComplex(info);
      }
    }

    /** run: accepts each species that passes the abstraction filter, in iteration order. */
    method Run()
      requires HasDefault()
      requires forall i :: 0 <= i < |species| && RunVisits(species[i]) && species[i].kind == ComplexKind ==> Loadable(species[i])
      modifies this, document
      ensures document.reactions == old(document.reactions) + RunReactions(species)
      ensures document.species == old(document.species)
    {
      var i := 0;
      while i < |species|
        invariant 0 <= i <= |species|
        invariant document.reactions == old(document.reactions) + RunReactions(species[..i])
        invariant document.species == old(document.species)
      {
        if RunVisits(species[i]) {
          Accept(species[i]);
        }
        assert species[..i + 1][..i] == species[..i];
        i := i + 1;
      }
      assert species[..i] == species;
    }
  }
}
