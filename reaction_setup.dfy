/**
 * Reaction setup of the hierarchical simulator: which SBML reactions get a
 * reaction node, and how each kinetic law becomes a forward rate, or a forward
 * and a reverse rate. Parameter setup, species-reference setup and the
 * reaction node's molecule check are calls into code outside this model; they
 * are recorded, in order, in the model state's call log.
 */
module ReactionSetup {
  import opened Wrappers

  /** A kinetic-law formula (an ASTNode), as text. */
  type Formula = string

  /** The node the math interpreter builds from a formula. */
  datatype RateNode = Parsed(formula: Formula)

  /** HierarchicalUtilities.inlineFormula: function definitions expanded into the formula. */
  type Inliner = Formula -> Formula
  /** HierarchicalUtilities.splitMath: forward and reverse parts of a reversible law, or null. */
  type Splitter = Formula -> Option<(Formula, Formula)>
  /** MathInterpreter.parseASTNode. */
  type Parser = Formula -> RateNode

  datatype SpeciesReference = SpeciesReference(species: string, stoichiometry: real)

  datatype Reaction = Reaction(
    id: string,
    reactants: seq<SpeciesReference>,
    products: seq<SpeciesReference>,
    kineticLaw: Option<Formula>,
    reversible: bool,
    arrayed: bool)

  datatype StateType = Sparse | Dense

  datatype ReactionNode = ReactionNode(
    state: Option<StateType>,
    values: map<int, real>,
    forwardRate: Option<RateNode>,
    reverseRate: Option<RateNode>)

  /** Calls into code outside the model, in the order they are made. */
  datatype SetupCall =
    | LocalParameters(reaction: string)
    | SingleReactant(reaction: string, species: string)
    | SingleProduct(reaction: string, species: string)
    | ForwardRateSet(reaction: string, rate: RateNode)
    | ReverseRateSet(reaction: string, rate: RateNode)
    | NotEnoughMolecules(reaction: string, index: int)

  /** The node addReaction, createState(SPARSE) and setValue(index, 0) leave behind. */
  function FreshNode(index: int): ReactionNode
  {
    ReactionNode(Some(Sparse), map[index := 0.0], None, None)
  }

  /** setupReactions: a node for every reaction neither deleted by SId nor arrayed. */
  function AddNodes(nodes: map<string, ReactionNode>, rs: seq<Reaction>, deleted: set<string>, index: int): map<string, ReactionNode>
    decreases |rs|
  {
    if rs == [] then nodes
    else
      var r := rs[0];
      var nodes' := if r.id in deleted || r.arrayed then nodes else nodes[r.id := FreshNode(index)];
      AddNodes(nodes', rs[1..], deleted, index)
  }

  predicate GetsNode(r: Reaction, deleted: set<string>)
  {
    r.id !in deleted && !r.arrayed
  }

  /**
   * The node map after setupReactions: a fresh node exactly for the ids of
   * reactions that get one, every other entry as before.
   */
  lemma {:induction false} AddNodesContents(nodes: map<string, ReactionNode>, rs: seq<Reaction>, deleted: set<string>, index: int)
    ensures forall id :: id in AddNodes(nodes, rs, deleted, index) <==>
              id in nodes || exists k :: 0 <= k < |rs| && rs[k].id == id && GetsNode(rs[k], deleted)
    ensures forall k :: 0 <= k < |rs| && GetsNode(rs[k], deleted) ==> AddNodes(nodes, rs, deleted, index)[rs[k].id] == FreshNode(index)
    ensures forall id :: id in nodes && (forall k :: 0 <= k < |rs| ==> rs[k].id != id || !GetsNode(rs[k], deleted)) ==>
              AddNodes(nodes, rs, deleted, index)[id] == nodes[id]
    decreases |rs|
  {
    if rs != [] {
      var r := rs[0];
      var nodes' := if r.id in deleted || r.arrayed then nodes else nodes[r.id := FreshNode(index)];
      AddNodesContents(nodes', rs[1..], deleted, index);
      forall id | id in AddNodes(nodes, rs, deleted, index)
        ensures id in nodes || exists k :: 0 <= k < |rs| && rs[k].id == id && GetsNode(rs[k], deleted)
      {
        if id !in nodes && id in nodes' {
          assert rs[0].id == id && GetsNode(rs[0], deleted);
        } else if id !in nodes {
          var k :| 0 <= k < |rs[1..]| && rs[1..][k].id == id && GetsNode(rs[1..][k], deleted);
          assert rs[k + 1] == rs[1..][k];
        }
      }
      forall id | id in nodes || exists k :: 0 <= k < |rs| && rs[k].id == id && GetsNode(rs[k], deleted)
        ensures id in AddNodes(nodes, rs, deleted, index)
      {
        if id !in nodes {
          var k :| 0 <= k < |rs| && rs[k].id == id && GetsNode(rs[k], deleted);
          if k > 0 {
            assert rs[1..][k - 1] == rs[k];
          }
        }
      }
      forall k | 0 <= k < |rs| && GetsNode(rs[k], deleted)
        ensures AddNodes(nodes, rs, deleted, index)[rs[k].id] == FreshNode(index)
      {
        if k > 0 {
          assert rs[1..][k - 1] == rs[k];
        }
      }
      forall id | id in nodes && (forall k :: 0 <= k < |rs| ==> rs[k].id != id || !GetsNode(rs[k], deleted))
        ensures AddNodes(nodes, rs, deleted, index)[id] == nodes[id]
      {
        assert rs[0].id != id || !GetsNode(rs[0], deleted);
        forall k | 0 <= k < |rs[1..]| ensures rs[1..][k].id != id || !GetsNode(rs[1..][k], deleted) {
          assert rs[1..][k] == rs[k + 1];
        }
      }
    }
  }

  /**
   * The forward rate and the optional reverse rate of a kinetic law
   * (setupSingleReaction): the formula is inlined first; a reversible reaction
   * with splitting on and a splittable law gets both parts, every other
   * reaction gets the whole inlined law as forward rate and no reverse rate.
   */
  function Rates(law: Formula, reversible: bool, split: bool, inline: Inliner, splitMath: Splitter, parse: Parser): (RateNode, Option<RateNode>)
  {
    var f := inline(law);
    if reversible && split then
      match splitMath(f)
      case None => (parse(f), None)
      case Some(parts) => (parse(parts.0), Some(parse(parts.1)))
    else (parse(f), None)
  }

  /**
   * A reverse rate is produced exactly for a reversible reaction with splitting
   * on whose inlined law splits; the forward rate is then the parsed first part,
   * and otherwise the parsed whole inlined law.
   */
  lemma RatesDecision(law: Formula, reversible: bool, split: bool, inline: Inliner, splitMath: Splitter, parse: Parser)
    ensures var (fwd, rev) := Rates(law, reversible, split, inline, splitMath, parse);
      (rev.Some? <==> reversible && split && splitMath(inline(law)).Some?)
      && (rev.Some? ==> fwd == parse(splitMath(inline(law)).value.0) && rev.value == parse(splitMath(inline(law)).value.1))
      && (rev.None? ==> fwd == parse(inline(law)))
  {
  }

  /** setupSingleReactant for each reference, in order. */
  function ReactantCalls(id: string, refs: seq<SpeciesReference>): (c: seq<SetupCall>)
    ensures |c| == |refs|
  {
    if refs == [] then [] else ReactantCalls(id, refs[..|refs| - 1]) + [SingleReactant(id, refs[|refs| - 1].species)]
  }

  /** setupSingleProduct for each reference, in order. */
  function ProductCalls(id: string, refs: seq<SpeciesReference>): (c: seq<SetupCall>)
    ensures |c| == |refs|
  {
    if refs == [] then [] else ProductCalls(id, refs[..|refs| - 1]) + [SingleProduct(id, refs[|refs| - 1].species)]
  }

  lemma {:induction false} CallsPerReference(id: string, refs: seq<SpeciesReference>)
    ensures forall k :: 0 <= k < |refs| ==> ReactantCalls(id, refs)[k] == SingleReactant(id, refs[k].species)
    ensures forall k :: 0 <= k < |refs| ==> ProductCalls(id, refs)[k] == SingleProduct(id, refs[k].species)
  {
    if refs != [] {
      CallsPerReference(id, refs[..|refs| - 1]);
    }
  }

  /** Setting the rates of a kinetic law, then the molecule check. */
  function RateCalls(id: string, fwd: RateNode, rev: Option<RateNode>, index: int): seq<SetupCall>
  {
    [ForwardRateSet(id, fwd)]
    + (if rev.Some? then [ReverseRateSet(id, rev.value)] else [])
    + [NotEnoughMolecules(id, index)]
  }

  /** The calls the wiring pass makes for one reaction that is not deleted. */
  function WireCalls(r: Reaction, split: bool, index: int, inline: Inliner, splitMath: Splitter, parse: Parser): seq<SetupCall>
  {
    ReactantCalls(r.id, r.reactants) + ProductCalls(r.id, r.products)
    + (match r.kineticLaw
       case None => []
       case Some(law) =>
         var (fwd, rev) := Rates(law, r.reversible, split, inline, splitMath, parse);
         RateCalls(r.id, fwd, rev, index))
  }

  /**
   * For one reaction: every reactant is registered before every product; a
   * reaction without a kinetic law gets no rate and no molecule check; one with
   * a law ends with exactly one molecule check, made after its rates are set.
   */
  lemma WireCallsOrder(r: Reaction, split: bool, index: int, inline: Inliner, splitMath: Splitter, parse: Parser)
    ensures var c := WireCalls(r, split, index, inline, splitMath, parse);
      var nr := |r.reactants|;
      var np := |r.products|;
      (forall k :: 0 <= k < nr ==> c[k] == SingleReactant(r.id, r.reactants[k].species))
      && (forall k :: 0 <= k < np ==> c[nr + k] == SingleProduct(r.id, r.products[k].species))
      && (r.kineticLaw.None? ==> |c| == nr + np)
      && (r.kineticLaw.Some? ==>
            c[|c| - 1] == NotEnoughMolecules(r.id, index)
            && c[nr + np].ForwardRateSet?
            && (forall k :: 0 <= k < |c| - 1 ==> !c[k].NotEnoughMolecules?))
  {
    CallsPerReference(r.id, r.reactants);
    CallsPerReference(r.id, r.products);
  }

  /** The node after its rates are set: setReverseRate only runs when there is a reverse part. */
  function WithRates(node: ReactionNode, fwd: RateNode, rev: Option<RateNode>): ReactionNode
  {
    node.(forwardRate := Some(fwd), reverseRate := if rev.Some? then rev else node.reverseRate)
  }

  /** The calls of the whole wiring pass (deleted reactions contribute nothing). */
  function WiringCalls(rs: seq<Reaction>, deleted: set<string>, split: bool, index: int, inline: Inliner, splitMath: Splitter, parse: Parser): seq<SetupCall>
  {
    if rs == [] then []
    else
      (if rs[0].id in deleted then [] else WireCalls(rs[0], split, index, inline, splitMath, parse))
      + WiringCalls(rs[1..], deleted, split, index, inline, splitMath, parse)
  }

  /** The node map after wiring one reaction that is not deleted. */
  function WiredOne(nodes: map<string, ReactionNode>, r: Reaction, split: bool, inline: Inliner, splitMath: Splitter, parse: Parser): map<string, ReactionNode>
  {
    if r.kineticLaw.None? || r.id !in nodes then nodes
    else
      var (fwd, rev) := Rates(r.kineticLaw.value, r.reversible, split, inline, splitMath, parse);
      nodes[r.id := WithRates(nodes[r.id], fwd, rev)]
  }

  lemma WiredOneKeys(nodes: map<string, ReactionNode>, r: Reaction, split: bool, inline: Inliner, splitMath: Splitter, parse: Parser)
    ensures WiredOne(nodes, r, split, inline, splitMath, parse).Keys == nodes.Keys
  {
  }

  /** The node map after the wiring pass. */
  function Wired(nodes: map<string, ReactionNode>, rs: seq<Reaction>, deleted: set<string>, split: bool, inline: Inliner, splitMath: Splitter, parse: Parser): map<string, ReactionNode>
    decreases |rs|
  {
    if rs == [] then nodes
    else
      var nodes' := if rs[0].id in deleted then nodes else WiredOne(nodes, rs[0], split, inline, splitMath, parse);
      Wired(nodes', rs[1..], deleted, split, inline, splitMath, parse)
  }

  /** One step of the wiring pass, unfolded. */
  lemma WiringStep(rs: seq<Reaction>, i: nat, nodes: map<string, ReactionNode>, deleted: set<string>, split: bool, index: int,
                   inline: Inliner, splitMath: Splitter, parse: Parser)
    requires i < |rs|
    ensures rs[i].id in deleted ==>
      WiringCalls(rs[i..], deleted, split, index, inline, splitMath, parse) == WiringCalls(rs[i + 1..], deleted, split, index, inline, splitMath, parse)
      && Wired(nodes, rs[i..], deleted, split, inline, splitMath, parse) == Wired(nodes, rs[i + 1..], deleted, split, inline, splitMath, parse)
    ensures rs[i].id !in deleted ==>
      WiringCalls(rs[i..], deleted, split, index, inline, splitMath, parse)
        == WireCalls(rs[i], split, index, inline, splitMath, parse) + WiringCalls(rs[i + 1..], deleted, split, index, inline, splitMath, parse)
      && Wired(nodes, rs[i..], deleted, split, inline, splitMath, parse)
        == Wired(WiredOne(nodes, rs[i], split, inline, splitMath, parse), rs[i + 1..], deleted, split, inline, splitMath, parse)
  {
    assert rs[i..][1..] == rs[i + 1..];
  }

  /** The wiring pass's bookkeeping carried past a reaction that is wired. */
  lemma WiringAdvance(rs: seq<Reaction>, i: nat, nodesBefore: map<string, ReactionNode>, nodesAfter: map<string, ReactionNode>,
                      callsBefore: seq<SetupCall>, callsAfter: seq<SetupCall>, nodes0: map<string, ReactionNode>, calls0: seq<SetupCall>,
                      deleted: set<string>, split: bool, index: int, inline: Inliner, splitMath: Splitter, parse: Parser)
    requires i < |rs| && rs[i].id !in deleted
    requires callsBefore + WiringCalls(rs[i..], deleted, split, index, inline, splitMath, parse)
             == calls0 + WiringCalls(rs, deleted, split, index, inline, splitMath, parse)
    requires Wired(nodesBefore, rs[i..], deleted, split, inline, splitMath, parse) == Wired(nodes0, rs, deleted, split, inline, splitMath, parse)
    requires callsAfter == callsBefore + WireCalls(rs[i], split, index, inline, splitMath, parse)
    requires nodesAfter == WiredOne(nodesBefore, rs[i], split, inline, splitMath, parse)
    ensures callsAfter + WiringCalls(rs[i + 1..], deleted, split, index, inline, splitMath, parse)
            == calls0 + WiringCalls(rs, deleted, split, index, inline, splitMath, parse)
    ensures Wired(nodesAfter, rs[i + 1..], deleted, split, inline, splitMath, parse) == Wired(nodes0, rs, deleted, split, inline, splitMath, parse)
  {
    WiringStep(rs, i, nodesBefore, deleted, split, index, inline, splitMath, parse);
    ConcatAssoc(callsBefore, WireCalls(rs[i], split, index, inline, splitMath, parse),
                WiringCalls(rs[i + 1..], deleted, split, index, inline, splitMath, parse));
  }

  lemma ConcatAssoc<T>(a: seq<T>, b: seq<T>, c: seq<T>)
    ensures (a + b) + c == a + (b + c)
  {
  }

  /** A wired reaction with a kinetic law whose node does not exist: the Java code dereferences null. */
  predicate MissingNode(r: Reaction, deleted: set<string>, nodes: map<string, ReactionNode>)
  {
    r.id !in deleted && r.kineticLaw.Some? && r.id !in nodes
  }

  class HierarchicalModel {
    var deletedBySId: set<string>
    var index: int
    var reactionNodes: map<string, ReactionNode>
    var calls: seq<SetupCall>

    constructor (deletedBySId: set<string>, index: int)
      ensures this.deletedBySId == deletedBySId && this.index == index
      ensures reactionNodes == map[] && calls == []
    {
      this.deletedBySId := deletedBySId;
      this.index := index;
      reactionNodes := map[];
      calls := [];
    }

    /**
     * setupReactions: local parameters are set up for every reaction, deleted
     * and arrayed ones included; a reaction deleted by SId or arrayed gets no
     * node, every other one a node with sparse state and value 0 at the model
     * index.
     */
    method SetupReactions(reactions: seq<Reaction>)
      modifies this
      ensures deletedBySId == old(deletedBySId) && index == old(index)
      ensures calls == old(calls) + seq(|reactions|, k requires 0 <= k < |reactions| => LocalParameters(reactions[k].id))
      ensures reactionNodes == AddNodes(old(reactionNodes), reactions, deletedBySId, index)
    {
      var i := 0;
      while i < |reactions|
        invariant 0 <= i <= |reactions|
        invariant deletedBySId == old(deletedBySId) && index == old(index)
        invariant calls == old(calls) + seq(i, k requires 0 <= k < i => LocalParameters(reactions[k].id))
        invariant AddNodes(reactionNodes, reactions[i..], deletedBySId, index) == AddNodes(old(reactionNodes), reactions, deletedBySId, index)
      {
        var reaction := reactions[i];
        calls := calls + [LocalParameters(reaction.id)];
        assert reactions[i..][1..] == reactions[i + 1..];
        if reaction.id in deletedBySId {
          i := i + 1;
          continue;
        } else if reaction.arrayed {
          i := i + 1;
          continue;
        }
        reactionNodes := reactionNodes[reaction.id := FreshNode(index)];
        i := i + 1;
      }
    }

    /** The two species-reference loops of the wiring pass: reactants first, then products. */
    method RegisterReferences(reaction: Reaction)
      modifies this`calls
      ensures calls == old(calls) + (ReactantCalls(reaction.id, reaction.reactants) + ProductCalls(reaction.id, reaction.products))
    {
      var j := 0;
      while j < |reaction.reactants|
        invariant 0 <= j <= |reaction.reactants|
        invariant calls == old(calls) + ReactantCalls(reaction.id, reaction.reactants[..j])
      {
        assert reaction.reactants[..j + 1][..j] == reaction.reactants[..j];
        calls := calls + [SingleReactant(reaction.id, reaction.reactants[j].species)];
        j := j + 1;
      }
      assert reaction.reactants[..j] == reaction.reactants;
      ghost var afterReactants := calls;
      j := 0;
      while j < |reaction.products|
        invariant 0 <= j <= |reaction.products|
        invariant calls == afterReactants + ProductCalls(reaction.id, reaction.products[..j])
      {
        assert reaction.products[..j + 1][..j] == reaction.products[..j];
        calls := calls + [SingleProduct(reaction.id, reaction.products[j].species)];
        j := j + 1;
      }
      assert reaction.products[..j] == reaction.products;
    }

    /**
     * The kinetic-law part of the wiring pass for a reaction that has a node:
     * set the rates, then run the molecule check at the model index.
     */
    method SetRates(id: string, law: Formula, reversible: bool, split: bool, inline: Inliner, splitMath: Splitter, parse: Parser)
      requires id in reactionNodes
      modifies this`calls, this`reactionNodes
      ensures var (fwd, rev) := Rates(law, reversible, split, inline, splitMath, parse);
        calls == old(calls) + RateCalls(id, fwd, rev, index)
        && reactionNodes == old(reactionNodes)[id := WithRates(old(reactionNodes)[id], fwd, rev)]
    {
      var fwd, rev := SetupSingleReaction(law, reversible, split, inline, splitMath, parse);
      reactionNodes := reactionNodes[id := WithRates(reactionNodes[id], fwd, rev)];
      calls := calls + [ForwardRateSet(id, fwd)];
      if rev.Some? {
        calls := calls + [ReverseRateSet(id, rev.value)];
      }
      calls := calls + [NotEnoughMolecules(id, index)];
    }

    /**
     * One iteration of the wiring pass for a reaction that is not deleted:
     * false when the reaction has a kinetic law but no node.
     */
    method WireReaction(reaction: Reaction, split: bool, inline: Inliner, splitMath: Splitter, parse: Parser) returns (ok: bool)
      modifies this`calls, this`reactionNodes
      ensures ok <==> !(reaction.kineticLaw.Some? && reaction.id !in old(reactionNodes))
      ensures ok ==> calls == old(calls) + WireCalls(reaction, split, index, inline, splitMath, parse)
      ensures ok ==> reactionNodes == WiredOne(old(reactionNodes), reaction, split, inline, splitMath, parse)
    {
      RegisterReferences(reaction);
      if reaction.kineticLaw.Some? {
        if reaction.id !in reactionNodes {
          return false;
        }
        SetRates(reaction.id, reaction.kineticLaw.value, reaction.reversible, split, inline, splitMath, parse);
      }
      return true;
    }

    /**
     * The body of the wiring loop at position i for a reaction that is not
     * deleted: wires it and keeps the loop's bookkeeping in step.
     */
    method WireAt(reactions: seq<Reaction>, i: nat, split: bool, inline: Inliner, splitMath: Splitter, parse: Parser,
                  ghost nodes0: map<string, ReactionNode>, ghost calls0: seq<SetupCall>) returns (ok: bool)
      requires i < |reactions| && reactions[i].id !in deletedBySId
      requires reactionNodes.Keys == nodes0.Keys
      requires calls + WiringCalls(reactions[i..], deletedBySId, split, index, inline, splitMath, parse)
               == calls0 + WiringCalls(reactions, deletedBySId, split, index, inline, splitMath, parse)
      requires Wired(reactionNodes, reactions[i..], deletedBySId, split, inline, splitMath, parse)
               == Wired(nodes0, reactions, deletedBySId, split, inline, splitMath, parse)
      modifies this`calls, this`reactionNodes
      ensures ok <==> !MissingNode(reactions[i], deletedBySId, nodes0)
      ensures ok ==> reactionNodes.Keys == nodes0.Keys
      ensures ok ==> calls + WiringCalls(reactions[i + 1..], deletedBySId, split, index, inline, splitMath, parse)
                     == calls0 + WiringCalls(reactions, deletedBySId, split, index, inline, splitMath, parse)
      ensures ok ==> Wired(reactionNodes, reactions[i + 1..], deletedBySId, split, inline, splitMath, parse)
                     == Wired(nodes0, reactions, deletedBySId, split, inline, splitMath, parse)
    {
      ghost var nodesBefore := reactionNodes;
      ghost var callsBefore := calls;
      ok := WireReaction(reactions[i], split, inline, splitMath, parse);
      if ok {
        WiredOneKeys(nodesBefore, reactions[i], split, inline, splitMath, parse);
        WiringAdvance(reactions, i, nodesBefore, reactionNodes, callsBefore, calls, nodes0, calls0,
                      deletedBySId, split, index, inline, splitMath, parse);
      }
    }

    /**
     * setupSpeciesReferenceToReaction: for every reaction not deleted by SId,
     * registers its reactants, then its products, then sets the rates of a
     * kinetic law and runs the molecule check. Fails where a reaction with a
     * kinetic law has no node.
     */
    method SetupSpeciesReferenceToReaction(reactions: seq<Reaction>, split: bool, inline: Inliner, splitMath: Splitter, parse: Parser)
      returns (r: Result<(), string>)
      modifies this`calls, this`reactionNodes
      ensures r.Err? <==> exists k :: 0 <= k < |reactions| && MissingNode(reactions[k], deletedBySId, old(reactionNodes))
      ensures r.Ok? ==> calls == old(calls) + WiringCalls(reactions, deletedBySId, split, index, inline, splitMath, parse)
      ensures r.Ok? ==> reactionNodes == Wired(old(reactionNodes), reactions, deletedBySId, split, inline, splitMath, parse)
    {
      var i := 0;
      while i < |reactions|
        invariant 0 <= i <= |reactions|
        invariant reactionNodes.Keys == old(reactionNodes).Keys
        invariant forall k :: 0 <= k < i ==> !MissingNode(reactions[k], deletedBySId, old(reactionNodes))
        invariant calls + WiringCalls(reactions[i..], deletedBySId, split, index, inline, splitMath, parse)
                  == old(calls) + WiringCalls(reactions, deletedBySId, split, index, inline, splitMath, parse)
        invariant Wired(reactionNodes, reactions[i..], deletedBySId, split, inline, splitMath, parse)
                  == Wired(old(reactionNodes), reactions, deletedBySId, split, inline, splitMath, parse)
      {
        if reactions[i].id in deletedBySId {
          WiringStep(reactions, i, reactionNodes, deletedBySId, split, index, inline, splitMath, parse);
          i := i + 1;
          continue;
        }
        var ok := WireAt(reactions, i, split, inline, splitMath, parse, old(reactionNodes), old(calls));
        if !ok {
          return Err(reactions[i].id);
        }
        i := i + 1;
      }
      return Ok(());
    }
  }

  /**
   * setupSingleReaction with its two helpers: the inlined law, split when the
   * reaction is reversible and splitting is on and splitMath does not give null.
   */
  method SetupSingleReaction(law: Formula, reversible: bool, split: bool, inline: Inliner, splitMath: Splitter, parse: Parser)
    returns (forward: RateNode, reverse: Option<RateNode>)
    ensures (forward, reverse) == Rates(law, reversible, split, inline, splitMath, parse)
  {
    var formula := inline(law);
    if reversible && split {
      var parts := splitMath(formula);
      if parts.None? {
        forward, reverse := parse(formula), None;
      } else {
        forward, reverse := parse(parts.value.0), Some(parse(parts.value.1));
      }
    } else {
      forward, reverse := parse(formula), None;
    }
  }
}
