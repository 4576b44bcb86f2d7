/**
 * The setup passes of the hierarchical simulator that turn an SBML model
 * into simulator state: compartments, constraints, events and their
 * assignments, initial assignments, species references, parameters,
 * propensities, reactions, rules and species. Each pass walks one list of
 * the model, skips what the model state marks as deleted, names per-entity
 * ids and hands the rest to the setup library. The library calls, and the
 * array bookkeeping of the superclass, are recorded as entries of a call log
 * on the model state; the maps and flags the passes write themselves are
 * fields of the model state.
 */
module SimulatorSetup {
  import opened Wrappers
  import JavaText

  /** A math element of the model (an ASTNode); the passes only pass it on. */
  type Math = string

  /** The SId and meta-id of an SBML element, each of which may be unset. */
  datatype SBase = SBase(id: Option<string>, metaId: Option<string>)

  datatype KineticLaw = KineticLaw(base: SBase, math: Math)
  datatype SpeciesReference = SpeciesReference(base: SBase, constant: bool, stoichiometry: real)
  datatype Reaction = Reaction(base: SBase, reactants: seq<SpeciesReference>, products: seq<SpeciesReference>,
                               kineticLaw: Option<KineticLaw>, reversible: bool)
  datatype Constraint = Constraint(base: SBase, math: Math)
  datatype EventAssignment = EventAssignment(base: SBase, variable: string, math: Math)
  datatype Event = Event(base: SBase, hasPriority: bool, hasDelay: bool, assignments: seq<EventAssignment>)
  datatype InitialAssignment = InitialAssignment(base: SBase, variable: string, math: Math)
  datatype Rule =
    | AssignmentRule(base: SBase, variable: string, math: Math)
    | RateRule(base: SBase, variable: string, math: Math)
    | AlgebraicRule(base: SBase, math: Math)

  /** The kinds of object the array setup of the superclass distinguishes. */
  datatype SetupType =
    COMPARTMENT | CONSTRAINT | EVENT | INITIAL_ASSIGNMENT | PARAMETER | REACTION
    | ASSIGNMENT_RULE | RATE_RULE | SPECIES | EVENT_ASSIGNMENT

  /** One call into the setup library or the array setup, in the order made. */
  datatype SetupCall =
    | SingleCompartment(id: string)
    | SingleConstraint(math: Math)
    | SingleEvent(id: string)
    | SinglePriority(id: string)
    | SingleDelay(id: string)
    | SingleEventAssignment(variable: string, eventId: string)
    | CalculateInitAssignments
    | LocalParameters(reaction: string)
    | SingleParameter(id: string)
    | SingleReactionPropensity(reaction: string)
    | SingleReaction(id: string, formula: Math, reversible: bool)
    | SingleAssignmentRule(variable: string)
    | SingleRateRule(variable: string)
    | SingleSpecies(id: string)
    | ArraysOf(kind: SetupType, id: string)
    | ArrayObject(kind: SetupType, id: string)
    | ArrayValue(kind: SetupType, id: string)

  /** getId(): the empty string when no SId is set. */
  function IdOf(b: SBase): string
  {
    if b.id.Some? then b.id.value else ""
  }

  predicate DeletedByMeta(b: SBase, byMeta: set<string>)
  {
    b.metaId.Some? && b.metaId.value in byMeta
  }

  /** The filter of the passes over named entities: deleted by SId or by meta-id. */
  predicate Deleted(b: SBase, bySid: set<string>, byMeta: set<string>)
  {
    (b.id.Some? && b.id.value in bySid) || DeletedByMeta(b, byMeta)
  }

  /** The calls a pass makes: each element's calls, in list order. */
  function Collect<T>(xs: seq<T>, step: T -> seq<SetupCall>): seq<SetupCall>
  {
    if |xs| == 0 then [] else Collect(xs[..|xs| - 1], step) + step(xs[|xs| - 1])
  }

  lemma CollectNext<T>(xs: seq<T>, i: nat, step: T -> seq<SetupCall>)
    requires i < |xs|
    ensures Collect(xs[..i + 1], step) == Collect(xs[..i], step) + step(xs[i])
  {
    assert xs[..i + 1][..i] == xs[..i];
  }

  lemma {:induction false} CollectMember<T>(xs: seq<T>, step: T -> seq<SetupCall>, c: SetupCall)
    ensures c in Collect(xs, step) <==> exists k :: 0 <= k < |xs| && c in step(xs[k])
  {
    if |xs| > 0 {
      var init := xs[..|xs| - 1];
      CollectMember(init, step, c);
      if c in Collect(init, step) {
        var k :| 0 <= k < |init| && c in step(init[k]);
        assert xs[k] == init[k];
      }
      if exists k :: 0 <= k < |xs| && c in step(xs[k]) {
        var k :| 0 <= k < |xs| && c in step(xs[k]);
        if k < |init| {
          assert init[k] == xs[k];
        }
      }
    }
  }

  /** The elements of `xs` that `keep` accepts, in order. */
  function Filter<T>(xs: seq<T>, keep: T -> bool): seq<T>
  {
    if |xs| == 0 then [] else Filter(xs[..|xs| - 1], keep) + (if keep(xs[|xs| - 1]) then [xs[|xs| - 1]] else [])
  }

  lemma FilterNext<T>(xs: seq<T>, i: nat, keep: T -> bool)
    requires i < |xs|
    ensures Filter(xs[..i + 1], keep) == Filter(xs[..i], keep) + (if keep(xs[i]) then [xs[i]] else [])
  {
    assert xs[..i + 1][..i] == xs[..i];
  }

  /**
   * The state a model's setup writes: the deletion and array sets it reads,
   * the flags, the initial-assignment map, the print and constant sets and
   * the variable-to-value map it fills, and the log of library calls.
   */
  class ModelState {
    const deletedBySId: set<string>
    const deletedByMetaId: set<string>
    const arrayedObjects: set<string>
    const isHierarchical: set<string>
    const modelId: string
    const numConstraints: nat
    var noConstraintsFlag: bool
    var noRuleFlag: bool
    var initAssignment: map<string, Math>
    var variablesToPrint: set<string>
    var isConstant: set<string>
    var variableToValue: map<string, real>
    var calls: seq<SetupCall>

    constructor (deletedBySId: set<string>, deletedByMetaId: set<string>, arrayedObjects: set<string>,
                 isHierarchical: set<string>, modelId: string, numConstraints: nat)
      ensures this.deletedBySId == deletedBySId && this.deletedByMetaId == deletedByMetaId
      ensures this.arrayedObjects == arrayedObjects && this.isHierarchical == isHierarchical
      ensures this.modelId == modelId && this.numConstraints == numConstraints
      ensures noConstraintsFlag && noRuleFlag
      ensures initAssignment == map[] && variablesToPrint == {} && isConstant == {} && variableToValue == map[]
      ensures calls == []
    {
      this.deletedBySId := deletedBySId;
      this.deletedByMetaId := deletedByMetaId;
      this.arrayedObjects := arrayedObjects;
      this.isHierarchical := isHierarchical;
      this.modelId := modelId;
      this.numConstraints := numConstraints;
      noConstraintsFlag := true;
      noRuleFlag := true;
      initAssignment := map[];
      variablesToPrint := {};
      isConstant := {};
      variableToValue := map[];
      calls := [];
    }
  }

  // ---------------------------------------------------------------------
  // Compartments and species

  function CompartmentStep(c: SBase, bySid: set<string>, byMeta: set<string>): seq<SetupCall>
  {
    if Deleted(c, bySid, byMeta) then []
    else [SingleCompartment(IdOf(c)), ArraysOf(COMPARTMENT, IdOf(c)), ArrayValue(COMPARTMENT, IdOf(c))]
  }

  function CompartmentCalls(cs: seq<SBase>, bySid: set<string>, byMeta: set<string>): seq<SetupCall>
  {
    Collect(cs, c => CompartmentStep(c, bySid, byMeta))
  }

  /** setupCompartments: a compartment is set up iff it is not deleted. */
  method SetupCompartments(ms: ModelState, compartments: seq<SBase>)
    modifies ms`calls
    ensures ms.calls == old(ms.calls) + CompartmentCalls(compartments, ms.deletedBySId, ms.deletedByMetaId)
  {
    for i := 0 to |compartments|
      invariant ms.calls == old(ms.calls) + CompartmentCalls(compartments[..i], ms.deletedBySId, ms.deletedByMetaId)
    {
      CollectNext(compartments, i, c => CompartmentStep(c, ms.deletedBySId, ms.deletedByMetaId));
      var compartment := compartments[i];
      if compartment.id.Some? && compartment.id.value in ms.deletedBySId {
        continue;
      } else if compartment.metaId.Some? && compartment.metaId.value in ms.deletedByMetaId {
        continue;
      }
      ms.calls := ms.calls + [SingleCompartment(IdOf(compartment))];
      ms.calls := ms.calls + [ArraysOf(COMPARTMENT, IdOf(compartment))];
      ms.calls := ms.calls + [ArrayValue(COMPARTMENT, IdOf(compartment))];
    }
    assert compartments[..|compartments|] == compartments;
  }

  lemma CompartmentSetUpIff(cs: seq<SBase>, bySid: set<string>, byMeta: set<string>, x: string)
    ensures SingleCompartment(x) in CompartmentCalls(cs, bySid, byMeta)
            <==> exists k :: 0 <= k < |cs| && !Deleted(cs[k], bySid, byMeta) && IdOf(cs[k]) == x
  {
    CollectMember(cs, c => CompartmentStep(c, bySid, byMeta), SingleCompartment(x));
  }

  function SpeciesStep(s: SBase, bySid: set<string>, byMeta: set<string>): seq<SetupCall>
  {
    if Deleted(s, bySid, byMeta) then []
    else [SingleSpecies(IdOf(s)), ArraysOf(SPECIES, IdOf(s)), ArrayValue(SPECIES, IdOf(s))]
  }

  function SpeciesCalls(ss: seq<SBase>, bySid: set<string>, byMeta: set<string>): seq<SetupCall>
  {
    Collect(ss, s => SpeciesStep(s, bySid, byMeta))
  }

  /** setupSpecies: a species is set up iff it is not deleted. */
  method SetupSpecies(ms: ModelState, species: seq<SBase>)
    modifies ms`calls
    ensures ms.calls == old(ms.calls) + SpeciesCalls(species, ms.deletedBySId, ms.deletedByMetaId)
  {
    for i := 0 to |species|
      invariant ms.calls == old(ms.calls) + SpeciesCalls(species[..i], ms.deletedBySId, ms.deletedByMetaId)
    {
      CollectNext(species, i, s => SpeciesStep(s, ms.deletedBySId, ms.deletedByMetaId));
      var s := species[i];
      if s.id.Some? && s.id.value in ms.deletedBySId {
        continue;
      } else if s.metaId.Some? && s.metaId.value in ms.deletedByMetaId {
        continue;
      }
      ms.calls := ms.calls + [SingleSpecies(IdOf(s))];
      ms.calls := ms.calls + [ArraysOf(SPECIES, IdOf(s))];
      ms.calls := ms.calls + [ArrayValue(SPECIES, IdOf(s))];
    }
    assert species[..|species|] == species;
  }

  lemma SpeciesSetUpIff(ss: seq<SBase>, bySid: set<string>, byMeta: set<string>, x: string)
    ensures SingleSpecies(x) in SpeciesCalls(ss, bySid, byMeta)
            <==> exists k :: 0 <= k < |ss| && !Deleted(ss[k], bySid, byMeta) && IdOf(ss[k]) == x
  {
    CollectMember(ss, s => SpeciesStep(s, bySid, byMeta), SingleSpecies(x));
  }

  // ---------------------------------------------------------------------
  // Constraints

  /** The id the constraint pass gives the n-th constraint it keeps. */
  function ConstraintId(n: nat): string
  {
    "constraint_" + JavaText.NatToString(n)
  }

  lemma ConstraintIdsDistinct(m: nat, n: nat)
    ensures ConstraintId(m) == ConstraintId(n) <==> m == n
  {
    if ConstraintId(m) == ConstraintId(n) {
      var p := "constraint_";
      assert JavaText.NatToString(m) == ConstraintId(m)[|p|..];
      assert JavaText.NatToString(n) == ConstraintId(n)[|p|..];
      JavaText.NatToStringInjective(m, n);
    }
  }

  function ConstraintStep(c: Constraint, id: string, arrayed: set<string>): seq<SetupCall>
  {
    [ArraysOf(CONSTRAINT, id), ArrayObject(CONSTRAINT, id)] + (if id in arrayed then [] else [SingleConstraint(c.math)])
  }

  /** The calls for the constraints that survive the filter, numbered in order. */
  function ConstraintCalls(kept: seq<Constraint>, arrayed: set<string>): seq<SetupCall>
  {
    if |kept| == 0 then []
    else ConstraintCalls(kept[..|kept| - 1], arrayed) + ConstraintStep(kept[|kept| - 1], ConstraintId(|kept| - 1), arrayed)
  }

  lemma ConstraintCallsNext(kept: seq<Constraint>, c: Constraint, arrayed: set<string>)
    ensures ConstraintCalls(kept + [c], arrayed) == ConstraintCalls(kept, arrayed) + ConstraintStep(c, ConstraintId(|kept|), arrayed)
  {
    assert (kept + [c])[..|kept|] == kept;
  }

  function KeptConstraints(cs: seq<Constraint>, byMeta: set<string>): seq<Constraint>
  {
    if |cs| == 0 then []
    else
      var last := cs[|cs| - 1];
      KeptConstraints(cs[..|cs| - 1], byMeta) + (if DeletedByMeta(last.base, byMeta) then [] else [last])
  }

  /** The body of setupConstraints' loop for the `count`-th kept constraint. */
  method SetupConstraint(ms: ModelState, constraint: Constraint, count: nat)
    modifies ms`calls
    ensures ms.calls == old(ms.calls) + ConstraintStep(constraint, ConstraintId(count), ms.arrayedObjects)
  {
    var id := "constraint_" + JavaText.NatToString(count);
    ms.calls := ms.calls + [ArraysOf(CONSTRAINT, id), ArrayObject(CONSTRAINT, id)];
    if id !in ms.arrayedObjects {
      ms.calls := ms.calls + [SingleConstraint(constraint.math)];
    }
  }

  /**
   * setupConstraints: clears the no-constraints flag when the model has
   * constraints; numbers the constraints not deleted by meta-id and sets up
   * each one whose id is not arrayed.
   */
  method SetupConstraints(ms: ModelState, constraints: seq<Constraint>)
    modifies ms`calls, ms`noConstraintsFlag
    ensures ms.noConstraintsFlag == (old(ms.noConstraintsFlag) && ms.numConstraints == 0)
    ensures ms.calls == old(ms.calls) + ConstraintCalls(KeptConstraints(constraints, ms.deletedByMetaId), ms.arrayedObjects)
  {
    if ms.numConstraints > 0 {
      ms.noConstraintsFlag := false;
    }
    SetupKeptConstraints(ms, constraints);
  }

  /** The loop of setupConstraints: numbers and sets up the constraints not deleted by meta-id. */
  method SetupKeptConstraints(ms: ModelState, constraints: seq<Constraint>)
    modifies ms`calls
    ensures ms.calls == old(ms.calls) + ConstraintCalls(KeptConstraints(constraints, ms.deletedByMetaId), ms.arrayedObjects)
  {
    var byMeta, arrayed := ms.deletedByMetaId, ms.arrayedObjects;
    var count := 0;
    ghost var kept: seq<Constraint> := [];
    for i := 0 to |constraints|
      invariant kept == KeptConstraints(constraints[..i], byMeta) && count == |kept|
      invariant ms.calls == old(ms.calls) + ConstraintCalls(kept, arrayed)
    {
      assert constraints[..i + 1][..i] == constraints[..i];
      var constraint := constraints[i];
      if constraint.base.metaId.Some? && constraint.base.metaId.value in byMeta {
        continue;
      }
      SetupConstraint(ms, constraint, count);
      count := count + 1;
      ConstraintCallsNext(kept, constraint, arrayed);
      kept := kept + [constraint];
    }
    assert constraints[..|constraints|] == constraints;
  }

  /** The constraint ids are exactly constraint_0 .. constraint_(n-1) for n kept constraints. */
  lemma {:induction false} ConstraintIdsNumbered(kept: seq<Constraint>, arrayed: set<string>, x: string)
    ensures ArraysOf(CONSTRAINT, x) in ConstraintCalls(kept, arrayed) <==> exists n :: 0 <= n < |kept| && x == ConstraintId(n)
  {
    if |kept| > 0 {
      ConstraintIdsNumbered(kept[..|kept| - 1], arrayed, x);
    }
  }

  lemma {:induction false} KeptConstraintsIff(cs: seq<Constraint>, byMeta: set<string>, c: Constraint)
    ensures c in KeptConstraints(cs, byMeta) <==> c in cs && !DeletedByMeta(c.base, byMeta)
  {
    if |cs| > 0 {
      KeptConstraintsIff(cs[..|cs| - 1], byMeta, c);
      assert cs == cs[..|cs| - 1] + [cs[|cs| - 1]];
    }
  }

  // ---------------------------------------------------------------------
  // Events and event assignments

  function EventAssignmentStep(eventId: string, a: EventAssignment, byMeta: set<string>, arrayed: set<string>): seq<SetupCall>
  {
    if DeletedByMeta(a.base, byMeta) then []
    else
      var assignmentId := eventId + "_" + a.variable;
      [ArrayObject(EVENT_ASSIGNMENT, assignmentId)]
      + (if assignmentId in arrayed then [] else [SingleEventAssignment(a.variable, eventId)])
  }

  function EventAssignmentCalls(eventId: string, as_: seq<EventAssignment>, byMeta: set<string>, arrayed: set<string>): seq<SetupCall>
  {
    Collect(as_, a => EventAssignmentStep(eventId, a, byMeta, arrayed))
  }

  /** The body of setupEventAssignments' loop for one assignment. */
  method SetupEventAssignment(ms: ModelState, assignment: EventAssignment, eventId: string)
    modifies ms`calls
    ensures ms.calls == old(ms.calls) + EventAssignmentStep(eventId, assignment, ms.deletedByMetaId, ms.arrayedObjects)
  {
    if assignment.base.metaId.Some? && assignment.base.metaId.value in ms.deletedByMetaId {
      return;
    }
    var assignmentId := eventId + "_" + assignment.variable;
    ms.calls := ms.calls + [ArrayObject(EVENT_ASSIGNMENT, assignmentId)];
    if assignmentId !in ms.arrayedObjects {
      ms.calls := ms.calls + [SingleEventAssignment(assignment.variable, eventId)];
    }
  }

  /** setupEventAssignments: skips assignments deleted by meta-id; sets up the rest unless arrayed. */
  method SetupEventAssignments(ms: ModelState, event: Event, eventId: string)
    modifies ms`calls
    ensures ms.calls == old(ms.calls) + EventAssignmentCalls(eventId, event.assignments, ms.deletedByMetaId, ms.arrayedObjects)
  {
    var assignments := event.assignments;
    var byMeta, arrayed := ms.deletedByMetaId, ms.arrayedObjects;
    for i := 0 to |assignments|
      invariant ms.calls == old(ms.calls) + EventAssignmentCalls(eventId, assignments[..i], byMeta, arrayed)
    {
      CollectNext(assignments, i, a => EventAssignmentStep(eventId, a, byMeta, arrayed));
      SetupEventAssignment(ms, assignments[i], eventId);
    }
    assert assignments[..|assignments|] == assignments;
  }

  /** The part of an event's setup made only when the event is not arrayed. */
  function EventSingleCalls(e: Event, byMeta: set<string>, arrayed: set<string>): seq<SetupCall>
  {
    var id := IdOf(e.base);
    [SingleEvent(id)]
    + (if e.hasPriority then [SinglePriority(id)] else [])
    + (if e.hasDelay then [SingleDelay(id)] else [])
    + EventAssignmentCalls(id, e.assignments, byMeta, arrayed)
  }

  function EventStep(e: Event, bySid: set<string>, byMeta: set<string>, arrayed: set<string>): seq<SetupCall>
  {
    if Deleted(e.base, bySid, byMeta) then []
    else
      [ArraysOf(EVENT, IdOf(e.base)), ArrayObject(EVENT, IdOf(e.base))]
      + (if IdOf(e.base) in arrayed then [] else EventSingleCalls(e, byMeta, arrayed))
  }

  function EventCalls(es: seq<Event>, bySid: set<string>, byMeta: set<string>, arrayed: set<string>): seq<SetupCall>
  {
    Collect(es, e => EventStep(e, bySid, byMeta, arrayed))
  }

  /** The single-event part of setupEvents for one event that is not deleted. */
  method SetupSingleEvent(ms: ModelState, event: Event, id: string)
    requires id == IdOf(event.base)
    modifies ms`calls
    ensures ms.calls == old(ms.calls) + EventSingleCalls(event, ms.deletedByMetaId, ms.arrayedObjects)
  {
    ms.calls := ms.calls + [SingleEvent(id)];
    if event.hasPriority {
      ms.calls := ms.calls + [SinglePriority(id)];
    }
    if event.hasDelay {
      ms.calls := ms.calls + [SingleDelay(id)];
    }
    SetupEventAssignments(ms, event, id);
  }

  /** The body of setupEvents' loop for one event. */
  method SetupEvent(ms: ModelState, event: Event)
    modifies ms`calls
    ensures ms.calls == old(ms.calls) + EventStep(event, ms.deletedBySId, ms.deletedByMetaId, ms.arrayedObjects)
  {
    var id := IdOf(event.base);
    if event.base.id.Some? && event.base.id.value in ms.deletedBySId {
      return;
    } else if event.base.metaId.Some? && event.base.metaId.value in ms.deletedByMetaId {
      return;
    }
    ms.calls := ms.calls + [ArraysOf(EVENT, id), ArrayObject(EVENT, id)];
    if id !in ms.arrayedObjects {
      SetupSingleEvent(ms, event, id);
    }
  }

  /**
   * setupEvents: skips events deleted by SId or meta-id; sets up the rest,
   * with priority, delay and assignments, unless the event id is arrayed.
   */
  method SetupEvents(ms: ModelState, events: seq<Event>)
    modifies ms`calls
    ensures ms.calls == old(ms.calls) + EventCalls(events, ms.deletedBySId, ms.deletedByMetaId, ms.arrayedObjects)
  {
    var bySid, byMeta, arrayed := ms.deletedBySId, ms.deletedByMetaId, ms.arrayedObjects;
    for i := 0 to |events|
      invariant ms.calls == old(ms.calls) + EventCalls(events[..i], bySid, byMeta, arrayed)
    {
      CollectNext(events, i, e => EventStep(e, bySid, byMeta, arrayed));
      SetupEvent(ms, events[i]);
    }
    assert events[..|events|] == events;
  }

  /** The assignment part of an event never contains a priority or delay setup. */
  lemma AssignmentCallsShape(eventId: string, as_: seq<EventAssignment>, byMeta: set<string>, arrayed: set<string>, x: string)
    ensures SinglePriority(x) !in EventAssignmentCalls(eventId, as_, byMeta, arrayed)
    ensures SingleDelay(x) !in EventAssignmentCalls(eventId, as_, byMeta, arrayed)
  {
    CollectMember(as_, a => EventAssignmentStep(eventId, a, byMeta, arrayed), SinglePriority(x));
    CollectMember(as_, a => EventAssignmentStep(eventId, a, byMeta, arrayed), SingleDelay(x));
  }

  /** Within one event's calls, the priority and delay setups follow the event's own flags. */
  lemma EventStepShape(e: Event, bySid: set<string>, byMeta: set<string>, arrayed: set<string>, x: string)
    ensures SinglePriority(x) in EventStep(e, bySid, byMeta, arrayed)
            <==> !Deleted(e.base, bySid, byMeta) && IdOf(e.base) == x && x !in arrayed && e.hasPriority
    ensures SingleDelay(x) in EventStep(e, bySid, byMeta, arrayed)
            <==> !Deleted(e.base, bySid, byMeta) && IdOf(e.base) == x && x !in arrayed && e.hasDelay
  {
    AssignmentCallsShape(IdOf(e.base), e.assignments, byMeta, arrayed, x);
  }

  /** A priority is set up exactly for a kept, non-arrayed event that has one. */
  lemma EventPrioritySetUpIff(es: seq<Event>, bySid: set<string>, byMeta: set<string>, arrayed: set<string>, x: string)
    ensures SinglePriority(x) in EventCalls(es, bySid, byMeta, arrayed)
            <==> exists k :: 0 <= k < |es| && !Deleted(es[k].base, bySid, byMeta) && IdOf(es[k].base) == x
                             && x !in arrayed && es[k].hasPriority
  {
    CollectMember(es, e => EventStep(e, bySid, byMeta, arrayed), SinglePriority(x));
    forall k | 0 <= k < |es| {
      EventStepShape(es[k], bySid, byMeta, arrayed, x);
    }
  }

  /** A delay is set up exactly for a kept, non-arrayed event that has one. */
  lemma EventDelaySetUpIff(es: seq<Event>, bySid: set<string>, byMeta: set<string>, arrayed: set<string>, x: string)
    ensures SingleDelay(x) in EventCalls(es, bySid, byMeta, arrayed)
            <==> exists k :: 0 <= k < |es| && !Deleted(es[k].base, bySid, byMeta) && IdOf(es[k].base) == x
                             && x !in arrayed && es[k].hasDelay
  {
    CollectMember(es, e => EventStep(e, bySid, byMeta, arrayed), SingleDelay(x));
    forall k | 0 <= k < |es| {
      EventStepShape(es[k], bySid, byMeta, arrayed, x);
    }
  }

  /** An event assignment is set up iff it is kept, its event is set up, and its own id is not arrayed. */
  lemma EventAssignmentSetUpIff(eventId: string, as_: seq<EventAssignment>, byMeta: set<string>, arrayed: set<string>, v: string)
    ensures SingleEventAssignment(v, eventId) in EventAssignmentCalls(eventId, as_, byMeta, arrayed)
            <==> exists k :: 0 <= k < |as_| && !DeletedByMeta(as_[k].base, byMeta) && as_[k].variable == v
                             && eventId + "_" + v !in arrayed
  {
    CollectMember(as_, a => EventAssignmentStep(eventId, a, byMeta, arrayed), SingleEventAssignment(v, eventId));
  }

  // ---------------------------------------------------------------------
  // Initial assignments

  function InitialAssignmentId(ia: InitialAssignment): string
  {
    "initial_" + ia.variable
  }

  /** An initial assignment that reaches the model state's initial-assignment map. */
  predicate InitApplies(ia: InitialAssignment, byMeta: set<string>, arrayed: set<string>)
  {
    !DeletedByMeta(ia.base, byMeta) && InitialAssignmentId(ia) !in arrayed
  }

  function InitialAssignmentStep(ia: InitialAssignment, byMeta: set<string>): seq<SetupCall>
  {
    if DeletedByMeta(ia.base, byMeta) then []
    else [ArraysOf(INITIAL_ASSIGNMENT, InitialAssignmentId(ia)), ArrayObject(INITIAL_ASSIGNMENT, InitialAssignmentId(ia))]
  }

  function InitialAssignmentCalls(ias: seq<InitialAssignment>, byMeta: set<string>): seq<SetupCall>
  {
    Collect(ias, ia => InitialAssignmentStep(ia, byMeta))
  }

  /** The initial-assignment map after the pass: later assignments to a variable overwrite earlier ones. */
  function InitMap(m0: map<string, Math>, ias: seq<InitialAssignment>, byMeta: set<string>, arrayed: set<string>): map<string, Math>
  {
    if |ias| == 0 then m0
    else
      var m := InitMap(m0, ias[..|ias| - 1], byMeta, arrayed);
      var ia := ias[|ias| - 1];
      if InitApplies(ia, byMeta, arrayed) then m[ia.variable := ia.math] else m
  }

  lemma InitMapNext(m0: map<string, Math>, ias: seq<InitialAssignment>, i: nat, byMeta: set<string>, arrayed: set<string>)
    requires i < |ias|
    ensures InitMap(m0, ias[..i + 1], byMeta, arrayed)
            == (var m := InitMap(m0, ias[..i], byMeta, arrayed);
                if InitApplies(ias[i], byMeta, arrayed) then m[ias[i].variable := ias[i].math] else m)
  {
    assert ias[..i + 1][..i] == ias[..i];
  }

  /**
   * setupInitialAssignments: skips assignments deleted by meta-id, records
   * the math of each non-arrayed one under its variable, then has the
   * library compute the initial values.
   */
  method SetupInitialAssignments(ms: ModelState, initAssignments: seq<InitialAssignment>)
    modifies ms`calls, ms`initAssignment
    ensures ms.initAssignment == InitMap(old(ms.initAssignment), initAssignments, ms.deletedByMetaId, ms.arrayedObjects)
    ensures ms.calls == old(ms.calls) + InitialAssignmentCalls(initAssignments, ms.deletedByMetaId) + [CalculateInitAssignments]
  {
    for i := 0 to |initAssignments|
      invariant ms.initAssignment == InitMap(old(ms.initAssignment), initAssignments[..i], ms.deletedByMetaId, ms.arrayedObjects)
      invariant ms.calls == old(ms.calls) + InitialAssignmentCalls(initAssignments[..i], ms.deletedByMetaId)
    {
      CollectNext(initAssignments, i, ia => InitialAssignmentStep(ia, ms.deletedByMetaId));
      InitMapNext(old(ms.initAssignment), initAssignments, i, ms.deletedByMetaId, ms.arrayedObjects);
      var initAssignment := initAssignments[i];
      if initAssignment.base.metaId.Some? && initAssignment.base.metaId.value in ms.deletedByMetaId {
        continue;
      }
      var id := "initial_" + initAssignment.variable;
      ms.calls := ms.calls + [ArraysOf(INITIAL_ASSIGNMENT, id), ArrayObject(INITIAL_ASSIGNMENT, id)];
      if id !in ms.arrayedObjects {
        ms.initAssignment := ms.initAssignment[initAssignment.variable := initAssignment.math];
      }
    }
    assert initAssignments[..|initAssignments|] == initAssignments;
    ms.calls := ms.calls + [CalculateInitAssignments];
  }

  /** A variable has an initial assignment afterwards iff it had one or some applied assignment targets it. */
  lemma {:induction false} InitMapDomain(m0: map<string, Math>, ias: seq<InitialAssignment>, byMeta: set<string>, arrayed: set<string>, v: string)
    ensures v in InitMap(m0, ias, byMeta, arrayed)
            <==> v in m0 || exists k :: 0 <= k < |ias| && InitApplies(ias[k], byMeta, arrayed) && ias[k].variable == v
    ensures (forall k :: 0 <= k < |ias| && InitApplies(ias[k], byMeta, arrayed) ==> ias[k].variable != v) && v in m0
            ==> InitMap(m0, ias, byMeta, arrayed)[v] == m0[v]
  {
    if |ias| > 0 {
      var init := ias[..|ias| - 1];
      InitMapDomain(m0, init, byMeta, arrayed, v);
      assert forall k :: 0 <= k < |init| ==> init[k] == ias[k];
    }
  }

  /** The last applied assignment to a variable determines its entry. */
  lemma {:induction false} InitMapLastWins(m0: map<string, Math>, ias: seq<InitialAssignment>, byMeta: set<string>, arrayed: set<string>, k: nat)
    requires k < |ias| && InitApplies(ias[k], byMeta, arrayed)
    requires forall j :: k < j < |ias| && InitApplies(ias[j], byMeta, arrayed) ==> ias[j].variable != ias[k].variable
    ensures ias[k].variable in InitMap(m0, ias, byMeta, arrayed)
    ensures InitMap(m0, ias, byMeta, arrayed)[ias[k].variable] == ias[k].math
  {
    if k < |ias| - 1 {
      var init := ias[..|ias| - 1];
      assert init[k] == ias[k];
      forall j | k < j < |init| && InitApplies(init[j], byMeta, arrayed)
        ensures init[j].variable != init[k].variable
      {
        assert init[j] == ias[j];
      }
      InitMapLastWins(m0, init, byMeta, arrayed, k);
    }
  }

  // ---------------------------------------------------------------------
  // Species references

  /** A species reference that the species-reference pass records: not deleted and with a non-empty id. */
  predicate Counts(r: SpeciesReference, bySid: set<string>, byMeta: set<string>)
  {
    !Deleted(r.base, bySid, byMeta) && |IdOf(r.base)| > 0
  }

  /** The part of the model state the species-reference pass writes. */
  datatype RefState = RefState(toPrint: set<string>, constants: set<string>, values: map<string, real>)

  /** One species reference: printed or constant by its flag; its stoichiometry only if no value exists yet. */
  function RecordReference(st: RefState, r: SpeciesReference, bySid: set<string>, byMeta: set<string>): RefState
  {
    if !Counts(r, bySid, byMeta) then st
    else
      var id := IdOf(r.base);
      RefState(if r.constant then st.toPrint else st.toPrint + {id},
               if r.constant then st.constants + {id} else st.constants,
               if id in st.values then st.values else st.values[id := r.stoichiometry])
  }

  function RecordAll(st: RefState, refs: seq<SpeciesReference>, bySid: set<string>, byMeta: set<string>): RefState
  {
    if |refs| == 0 then st
    else RecordReference(RecordAll(st, refs[..|refs| - 1], bySid, byMeta), refs[|refs| - 1], bySid, byMeta)
  }

  lemma RecordAllNext(st: RefState, refs: seq<SpeciesReference>, r: SpeciesReference, bySid: set<string>, byMeta: set<string>)
    ensures RecordAll(st, refs + [r], bySid, byMeta) == RecordReference(RecordAll(st, refs, bySid, byMeta), r, bySid, byMeta)
  {
    assert (refs + [r])[..|refs|] == refs;
  }

  /** Every reactant and then every product of each reaction, in reaction order. */
  function References(rs: seq<Reaction>): seq<SpeciesReference>
  {
    if |rs| == 0 then [] else References(rs[..|rs| - 1]) + rs[|rs| - 1].reactants + rs[|rs| - 1].products
  }

  /** The handling of one species reference with a non-empty id that is not deleted. */
  method RecordSpeciesReference(ms: ModelState, ref: SpeciesReference)
    modifies ms`variablesToPrint, ms`isConstant, ms`variableToValue
    ensures RefState(ms.variablesToPrint, ms.isConstant, ms.variableToValue)
            == RecordReference(RefState(old(ms.variablesToPrint), old(ms.isConstant), old(ms.variableToValue)),
                               ref, ms.deletedBySId, ms.deletedByMetaId)
  {
    if ref.base.id.Some? && ref.base.id.value in ms.deletedBySId {
      return;
    } else if ref.base.metaId.Some? && ref.base.metaId.value in ms.deletedByMetaId {
      return;
    }
    var id := IdOf(ref.base);
    if |id| > 0 {
      if !ref.constant {
        ms.variablesToPrint := ms.variablesToPrint + {id};
      } else {
        ms.isConstant := ms.isConstant + {id};
      }
      if id !in ms.variableToValue {
        ms.variableToValue := ms.variableToValue[id := ref.stoichiometry];
      }
    }
  }

  /** The loop over one list of species references of a reaction. */
  method RecordSpeciesReferences(ms: ModelState, refs: seq<SpeciesReference>, ghost before: seq<SpeciesReference>, ghost st0: RefState)
    requires RefState(ms.variablesToPrint, ms.isConstant, ms.variableToValue) == RecordAll(st0, before, ms.deletedBySId, ms.deletedByMetaId)
    modifies ms`variablesToPrint, ms`isConstant, ms`variableToValue
    ensures RefState(ms.variablesToPrint, ms.isConstant, ms.variableToValue) == RecordAll(st0, before + refs, ms.deletedBySId, ms.deletedByMetaId)
  {
    assert before + refs[..0] == before;
    for j := 0 to |refs|
      invariant RefState(ms.variablesToPrint, ms.isConstant, ms.variableToValue)
                == RecordAll(st0, before + refs[..j], ms.deletedBySId, ms.deletedByMetaId)
    {
      RecordAllNext(st0, before + refs[..j], refs[j], ms.deletedBySId, ms.deletedByMetaId);
      assert before + refs[..j + 1] == before + refs[..j] + [refs[j]];
      RecordSpeciesReference(ms, refs[j]);
    }
    assert refs[..|refs|] == refs;
  }

  /**
   * setupNonConstantSpeciesReferences: the reactants and then the products
   * of every reaction, deletion-filtered, recorded one by one.
   */
  method SetupNonConstantSpeciesReferences(ms: ModelState, reactions: seq<Reaction>)
    modifies ms`variablesToPrint, ms`isConstant, ms`variableToValue
    ensures RefState(ms.variablesToPrint, ms.isConstant, ms.variableToValue)
            == RecordAll(RefState(old(ms.variablesToPrint), old(ms.isConstant), old(ms.variableToValue)),
                         References(reactions), ms.deletedBySId, ms.deletedByMetaId)
  {
    ghost var st0 := RefState(ms.variablesToPrint, ms.isConstant, ms.variableToValue);
    for i := 0 to |reactions|
      invariant RefState(ms.variablesToPrint, ms.isConstant, ms.variableToValue)
                == RecordAll(st0, References(reactions[..i]), ms.deletedBySId, ms.deletedByMetaId)
    {
      var reaction := reactions[i];
      assert reactions[..i + 1][..i] == reactions[..i];
      RecordSpeciesReferences(ms, reaction.reactants, References(reactions[..i]), st0);
      RecordSpeciesReferences(ms, reaction.products, References(reactions[..i]) + reaction.reactants, st0);
    }
    assert reactions[..|reactions|] == reactions;
  }

  /** A value exists afterwards iff it existed or some recorded reference has that id; existing values stay. */
  lemma {:induction false} RecordedValuesDomain(st: RefState, refs: seq<SpeciesReference>, bySid: set<string>, byMeta: set<string>, id: string)
    ensures id in RecordAll(st, refs, bySid, byMeta).values
            <==> id in st.values || exists k :: 0 <= k < |refs| && Counts(refs[k], bySid, byMeta) && IdOf(refs[k].base) == id
    ensures id in st.values ==> RecordAll(st, refs, bySid, byMeta).values[id] == st.values[id]
  {
    if |refs| > 0 {
      var init := refs[..|refs| - 1];
      RecordedValuesDomain(st, init, bySid, byMeta, id);
      assert forall k :: 0 <= k < |init| ==> init[k] == refs[k];
    }
  }

  /** The first recorded reference with a given id, when no value existed before, sets the value. */
  lemma {:induction false} FirstStoichiometryWins(st: RefState, refs: seq<SpeciesReference>, bySid: set<string>, byMeta: set<string>, k: nat)
    requires k < |refs| && Counts(refs[k], bySid, byMeta) && IdOf(refs[k].base) !in st.values
    requires forall j :: 0 <= j < k && Counts(refs[j], bySid, byMeta) ==> IdOf(refs[j].base) != IdOf(refs[k].base)
    ensures IdOf(refs[k].base) in RecordAll(st, refs, bySid, byMeta).values
    ensures RecordAll(st, refs, bySid, byMeta).values[IdOf(refs[k].base)] == refs[k].stoichiometry
  {
    var init := refs[..|refs| - 1];
    var id := IdOf(refs[k].base);
    if k == |refs| - 1 {
      RecordedValuesDomain(st, init, bySid, byMeta, id);
    } else {
      assert init[k] == refs[k];
      forall j | 0 <= j < k && Counts(init[j], bySid, byMeta)
        ensures IdOf(init[j].base) != IdOf(init[k].base)
      {
        assert init[j] == refs[j];
      }
      FirstStoichiometryWins(st, init, bySid, byMeta, k);
    }
  }

  /** An id is printed iff it was or some recorded non-constant reference has it; likewise for constants. */
  lemma {:induction false} RecordedFlags(st: RefState, refs: seq<SpeciesReference>, bySid: set<string>, byMeta: set<string>, id: string)
    ensures id in RecordAll(st, refs, bySid, byMeta).toPrint
            <==> id in st.toPrint || exists k :: 0 <= k < |refs| && Counts(refs[k], bySid, byMeta) && !refs[k].constant && IdOf(refs[k].base) == id
    ensures id in RecordAll(st, refs, bySid, byMeta).constants
            <==> id in st.constants || exists k :: 0 <= k < |refs| && Counts(refs[k], bySid, byMeta) && refs[k].constant && IdOf(refs[k].base) == id
  {
    if |refs| > 0 {
      var init := refs[..|refs| - 1];
      RecordedFlags(st, init, bySid, byMeta, id);
      assert forall k :: 0 <= k < |init| ==> init[k] == refs[k];
    }
  }

  // ---------------------------------------------------------------------
  // Parameters and propensities

  function LocalParameterStep(r: Reaction, byMeta: set<string>): seq<SetupCall>
  {
    if r.kineticLaw.None? || DeletedByMeta(r.kineticLaw.value.base, byMeta) then []
    else [LocalParameters(IdOf(r.base))]
  }

  function ParameterStep(p: SBase, bySid: set<string>, byMeta: set<string>): seq<SetupCall>
  {
    if Deleted(p, bySid, byMeta) then [] else [SingleParameter(IdOf(p))]
  }

  function ParameterArrayStep(p: SBase): seq<SetupCall>
  {
    [ArraysOf(PARAMETER, IdOf(p)), ArrayValue(PARAMETER, IdOf(p))]
  }

  function ParameterCalls(reactions: seq<Reaction>, parameters: seq<SBase>, bySid: set<string>, byMeta: set<string>): seq<SetupCall>
  {
    Collect(reactions, r => LocalParameterStep(r, byMeta))
    + Collect(parameters, p => ParameterStep(p, bySid, byMeta))
    + Collect(parameters, ParameterArrayStep)
  }

  /** The first loop of setupParameters: the local parameters of each reaction whose kinetic law is kept. */
  method SetupLocalParameters(ms: ModelState, reactions: seq<Reaction>)
    modifies ms`calls
    ensures ms.calls == old(ms.calls) + Collect(reactions, r => LocalParameterStep(r, ms.deletedByMetaId))
  {
    var byMeta := ms.deletedByMetaId;
    for i := 0 to |reactions|
      invariant ms.calls == old(ms.calls) + Collect(reactions[..i], r => LocalParameterStep(r, byMeta))
    {
      CollectNext(reactions, i, r => LocalParameterStep(r, byMeta));
      var reaction := reactions[i];
      if reaction.kineticLaw.None? {
        continue;
      }
      var kineticLaw := reaction.kineticLaw.value;
      if kineticLaw.base.metaId.Some? && kineticLaw.base.metaId.value in byMeta {
        continue;
      }
      ms.calls := ms.calls + [LocalParameters(IdOf(reaction.base))];
    }
    assert reactions[..|reactions|] == reactions;
  }

  /** The second loop of setupParameters: each parameter not deleted. */
  method SetupSingleParameters(ms: ModelState, parameters: seq<SBase>)
    modifies ms`calls
    ensures ms.calls == old(ms.calls) + Collect(parameters, p => ParameterStep(p, ms.deletedBySId, ms.deletedByMetaId))
  {
    var bySid, byMeta := ms.deletedBySId, ms.deletedByMetaId;
    for i := 0 to |parameters|
      invariant ms.calls == old(ms.calls) + Collect(parameters[..i], p => ParameterStep(p, bySid, byMeta))
    {
      CollectNext(parameters, i, p => ParameterStep(p, bySid, byMeta));
      var parameter := parameters[i];
      if parameter.id.Some? && parameter.id.value in bySid {
        continue;
      } else if parameter.metaId.Some? && parameter.metaId.value in byMeta {
        continue;
      }
      ms.calls := ms.calls + [SingleParameter(IdOf(parameter))];
    }
    assert parameters[..|parameters|] == parameters;
  }

  /** The third loop of setupParameters: the array setup of every parameter. */
  method SetupParameterArrays(ms: ModelState, parameters: seq<SBase>)
    modifies ms`calls
    ensures ms.calls == old(ms.calls) + Collect(parameters, ParameterArrayStep)
  {
    for i := 0 to |parameters|
      invariant ms.calls == old(ms.calls) + Collect(parameters[..i], ParameterArrayStep)
    {
      CollectNext(parameters, i, ParameterArrayStep);
      var parameter := parameters[i];
      ms.calls := ms.calls + [ArraysOf(PARAMETER, IdOf(parameter)), ArrayValue(PARAMETER, IdOf(parameter))];
    }
    assert parameters[..|parameters|] == parameters;
  }

  /**
   * setupParameters: the local parameters of every reaction with a kinetic
   * law not deleted by meta-id; then every parameter not deleted; then the
   * array setup of every parameter, deleted ones included.
   */
  method SetupParameters(ms: ModelState, reactions: seq<Reaction>, parameters: seq<SBase>)
    modifies ms`calls
    ensures ms.calls == old(ms.calls) + ParameterCalls(reactions, parameters, ms.deletedBySId, ms.deletedByMetaId)
  {
    SetupLocalParameters(ms, reactions);
    SetupSingleParameters(ms, parameters);
    SetupParameterArrays(ms, parameters);
  }

  /** A parameter is set up iff it is not deleted. */
  lemma ParameterSetUpIff(reactions: seq<Reaction>, parameters: seq<SBase>, bySid: set<string>, byMeta: set<string>, x: string)
    ensures SingleParameter(x) in ParameterCalls(reactions, parameters, bySid, byMeta)
            <==> exists k :: 0 <= k < |parameters| && !Deleted(parameters[k], bySid, byMeta) && IdOf(parameters[k]) == x
  {
    CollectMember(reactions, r => LocalParameterStep(r, byMeta), SingleParameter(x));
    CollectMember(parameters, p => ParameterStep(p, bySid, byMeta), SingleParameter(x));
    CollectMember(parameters, ParameterArrayStep, SingleParameter(x));
  }

  /** Array setup reaches every parameter, deleted or not. */
  lemma ParameterArraysForAll(reactions: seq<Reaction>, parameters: seq<SBase>, bySid: set<string>, byMeta: set<string>, k: nat)
    requires k < |parameters|
    ensures ArraysOf(PARAMETER, IdOf(parameters[k])) in ParameterCalls(reactions, parameters, bySid, byMeta)
  {
    CollectMember(parameters, ParameterArrayStep, ArraysOf(PARAMETER, IdOf(parameters[k])));
  }

  /**
   * Local parameters are set up for a reaction iff it has a kinetic law not
   * deleted by meta-id; deletion of the reaction itself plays no part.
   */
  lemma LocalParametersIff(reactions: seq<Reaction>, parameters: seq<SBase>, bySid: set<string>, byMeta: set<string>, x: string)
    ensures LocalParameters(x) in ParameterCalls(reactions, parameters, bySid, byMeta)
            <==> exists k :: 0 <= k < |reactions| && reactions[k].kineticLaw.Some?
                             && !DeletedByMeta(reactions[k].kineticLaw.value.base, byMeta) && IdOf(reactions[k].base) == x
  {
    CollectMember(reactions, r => LocalParameterStep(r, byMeta), LocalParameters(x));
    CollectMember(parameters, p => ParameterStep(p, bySid, byMeta), LocalParameters(x));
    CollectMember(parameters, ParameterArrayStep, LocalParameters(x));
  }

  function PropensityCalls(reactions: seq<string>): seq<SetupCall>
  {
    Collect(reactions, (r: string) => [SingleReactionPropensity(r)])
  }

  /** setupPropensities: one propensity setup per reaction of the model state, in its iteration order. */
  method SetupPropensities(ms: ModelState, setOfReactions: seq<string>)
    modifies ms`calls
    ensures ms.calls == old(ms.calls) + PropensityCalls(setOfReactions)
  {
    for i := 0 to |setOfReactions|
      invariant ms.calls == old(ms.calls) + PropensityCalls(setOfReactions[..i])
    {
      CollectNext(setOfReactions, i, (r: string) => [SingleReactionPropensity(r)]);
      ms.calls := ms.calls + [SingleReactionPropensity(setOfReactions[i])];
    }
    assert setOfReactions[..|setOfReactions|] == setOfReactions;
  }

  lemma PropensityIff(reactions: seq<string>, x: string)
    ensures SingleReactionPropensity(x) in PropensityCalls(reactions) <==> x in reactions
  {
    CollectMember(reactions, (r: string) => [SingleReactionPropensity(r)], SingleReactionPropensity(x));
  }

  // ---------------------------------------------------------------------
  // Reactions

  /**
   * A degradation reaction that another model replaces is left to the top
   * model: it is skipped in every hierarchical submodel but "topmodel".
   */
  predicate DegradationSkipped(r: Reaction, replacements: set<string>, isHierarchical: set<string>, modelId: string)
  {
    var id := IdOf(r.base);
    JavaText.Contains(id, "Degradation") && id in replacements && id in isHierarchical && modelId != "topmodel"
  }

  function ReactionStep(r: Reaction, bySid: set<string>, byMeta: set<string>, replacements: set<string>,
                        isHierarchical: set<string>, modelId: string): seq<SetupCall>
  {
    if Deleted(r.base, bySid, byMeta) || r.kineticLaw.None? || DegradationSkipped(r, replacements, isHierarchical, modelId) then []
    else [ArraysOf(REACTION, IdOf(r.base)), SingleReaction(IdOf(r.base), r.kineticLaw.value.math, r.reversible)]
  }

  function ReactionCalls(rs: seq<Reaction>, bySid: set<string>, byMeta: set<string>, replacements: set<string>,
                         isHierarchical: set<string>, modelId: string): seq<SetupCall>
  {
    Collect(rs, r => ReactionStep(r, bySid, byMeta, replacements, isHierarchical, modelId))
  }

  /**
   * setupReactions: skips deleted reactions, reactions without a kinetic
   * law and replaced hierarchical degradation reactions outside the top
   * model; sets up the rest.
   */
  method SetupReactions(ms: ModelState, reactions: seq<Reaction>, replacements: set<string>)
    modifies ms`calls
    ensures ms.calls == old(ms.calls) + ReactionCalls(reactions, ms.deletedBySId, ms.deletedByMetaId, replacements, ms.isHierarchical, ms.modelId)
  {
    for i := 0 to |reactions|
      invariant ms.calls == old(ms.calls) + ReactionCalls(reactions[..i], ms.deletedBySId, ms.deletedByMetaId, replacements, ms.isHierarchical, ms.modelId)
    {
      CollectNext(reactions, i, r => ReactionStep(r, ms.deletedBySId, ms.deletedByMetaId, replacements, ms.isHierarchical, ms.modelId));
      var reaction := reactions[i];
      if reaction.base.id.Some? && reaction.base.id.value in ms.deletedBySId {
        continue;
      } else if reaction.base.metaId.Some? && reaction.base.metaId.value in ms.deletedByMetaId {
        continue;
      }
      if reaction.kineticLaw.None? {
        continue;
      }
      var reactionId := IdOf(reaction.base);
      var species := reactionId;
      if JavaText.Contains(reactionId, "Degradation") && species in replacements {
        if species in ms.isHierarchical && ms.modelId != "topmodel" {
          continue;
        }
      }
      var reactionFormula := reaction.kineticLaw.value.math;
      ms.calls := ms.calls + [ArraysOf(REACTION, reactionId)];
      ms.calls := ms.calls + [SingleReaction(reactionId, reactionFormula, reaction.reversible)];
    }
    assert reactions[..|reactions|] == reactions;
  }

  /** A reaction is set up iff it is not deleted, has a kinetic law and is not a skipped degradation. */
  lemma ReactionSetUpIff(rs: seq<Reaction>, bySid: set<string>, byMeta: set<string>, replacements: set<string>,
                         isHierarchical: set<string>, modelId: string, x: string, f: Math, rev: bool)
    ensures SingleReaction(x, f, rev) in ReactionCalls(rs, bySid, byMeta, replacements, isHierarchical, modelId)
            <==> exists k :: 0 <= k < |rs| && !Deleted(rs[k].base, bySid, byMeta) && rs[k].kineticLaw.Some?
                             && !DegradationSkipped(rs[k], replacements, isHierarchical, modelId)
                             && IdOf(rs[k].base) == x && rs[k].kineticLaw.value.math == f && rs[k].reversible == rev
  {
    CollectMember(rs, r => ReactionStep(r, bySid, byMeta, replacements, isHierarchical, modelId), SingleReaction(x, f, rev));
  }

  // ---------------------------------------------------------------------
  // Rules

  function RuleStep(rule: Rule, byMeta: set<string>, arrayed: set<string>): seq<SetupCall>
  {
    if DeletedByMeta(rule.base, byMeta) then []
    else match rule
      case AssignmentRule(_, v, _) =>
        [ArraysOf(ASSIGNMENT_RULE, "assignment_" + v), ArrayObject(ASSIGNMENT_RULE, "assignment_" + v)]
        + (if "assignment_" + v in arrayed then [] else [SingleAssignmentRule(v)])
      case RateRule(_, v, _) =>
        [ArraysOf(RATE_RULE, "rate_" + v), ArrayObject(RATE_RULE, "rate_" + v)]
        + (if "rate_" + v in arrayed then [] else [SingleRateRule(v)])
      case AlgebraicRule(_, _) => []
  }

  function RuleCalls(rules: seq<Rule>, byMeta: set<string>, arrayed: set<string>): seq<SetupCall>
  {
    Collect(rules, r => RuleStep(r, byMeta, arrayed))
  }

  /** The body of setupRules' loop for one rule. */
  method SetupRule(ms: ModelState, rule: Rule)
    modifies ms`calls
    ensures ms.calls == old(ms.calls) + RuleStep(rule, ms.deletedByMetaId, ms.arrayedObjects)
  {
    if rule.base.metaId.Some? && rule.base.metaId.value in ms.deletedByMetaId {
      return;
    }
    if rule.AssignmentRule? {
      var id := "assignment_" + rule.variable;
      ms.calls := ms.calls + [ArraysOf(ASSIGNMENT_RULE, id), ArrayObject(ASSIGNMENT_RULE, id)];
      if id !in ms.arrayedObjects {
        ms.calls := ms.calls + [SingleAssignmentRule(rule.variable)];
      }
    } else if rule.RateRule? {
      var id := "rate_" + rule.variable;
      ms.calls := ms.calls + [ArraysOf(RATE_RULE, id), ArrayObject(RATE_RULE, id)];
      if id !in ms.arrayedObjects {
        ms.calls := ms.calls + [SingleRateRule(rule.variable)];
      }
    }
  }

  /**
   * setupRules: clears the no-rule flag when the model has rules; sets up
   * assignment and rate rules not deleted by meta-id and not arrayed.
   */
  method SetupRules(ms: ModelState, rules: seq<Rule>)
    modifies ms`calls, ms`noRuleFlag
    ensures ms.noRuleFlag == (old(ms.noRuleFlag) && |rules| == 0)
    ensures ms.calls == old(ms.calls) + RuleCalls(rules, ms.deletedByMetaId, ms.arrayedObjects)
  {
    if |rules| > 0 {
      ms.noRuleFlag := false;
    }
    var byMeta, arrayed := ms.deletedByMetaId, ms.arrayedObjects;
    for i := 0 to |rules|
      invariant ms.noRuleFlag == (old(ms.noRuleFlag) && |rules| == 0)
      invariant ms.calls == old(ms.calls) + RuleCalls(rules[..i], byMeta, arrayed)
    {
      CollectNext(rules, i, r => RuleStep(r, byMeta, arrayed));
      SetupRule(ms, rules[i]);
    }
    assert rules[..|rules|] == rules;
  }

  /** An assignment rule for v is set up iff one is kept and "assignment_v" is not arrayed. */
  lemma AssignmentRuleSetUpIff(rules: seq<Rule>, byMeta: set<string>, arrayed: set<string>, v: string)
    ensures SingleAssignmentRule(v) in RuleCalls(rules, byMeta, arrayed)
            <==> exists k :: 0 <= k < |rules| && rules[k].AssignmentRule? && !DeletedByMeta(rules[k].base, byMeta)
                             && rules[k].variable == v && "assignment_" + v !in arrayed
  {
    CollectMember(rules, r => RuleStep(r, byMeta, arrayed), SingleAssignmentRule(v));
  }

  /** A rate rule for v is set up iff one is kept and "rate_v" is not arrayed. */
  lemma RateRuleSetUpIff(rules: seq<Rule>, byMeta: set<string>, arrayed: set<string>, v: string)
    ensures SingleRateRule(v) in RuleCalls(rules, byMeta, arrayed)
            <==> exists k :: 0 <= k < |rules| && rules[k].RateRule? && !DeletedByMeta(rules[k].base, byMeta)
                             && rules[k].variable == v && "rate_" + v !in arrayed
  {
    CollectMember(rules, r => RuleStep(r, byMeta, arrayed), SingleRateRule(v));
  }

  /** Algebraic rules contribute nothing: dropping them leaves the calls unchanged. */
  lemma {:induction false} AlgebraicRulesIgnored(rules: seq<Rule>, byMeta: set<string>, arrayed: set<string>)
    ensures RuleCalls(Filter(rules, (r: Rule) => !r.AlgebraicRule?), byMeta, arrayed) == RuleCalls(rules, byMeta, arrayed)
  {
    if |rules| > 0 {
      var init := rules[..|rules| - 1];
      var last := rules[|rules| - 1];
      AlgebraicRulesIgnored(init, byMeta, arrayed);
      var kept := Filter(init, (r: Rule) => !r.AlgebraicRule?);
      var step := (r: Rule) => RuleStep(r, byMeta, arrayed);
      assert RuleCalls(rules, byMeta, arrayed) == Collect(init, step) + step(last);
      if !last.AlgebraicRule? {
        assert Filter(rules, (r: Rule) => !r.AlgebraicRule?) == kept + [last];
        assert (kept + [last])[..|kept|] == kept;
        assert Collect(kept + [last], step) == Collect(kept, step) + step(last);
      } else {
        assert Filter(rules, (r: Rule) => !r.AlgebraicRule?) == kept;
      }
    }
  }
}
