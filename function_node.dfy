/**
 * Function nodes of the hierarchical simulator: an SBML assignment rule or
 * initial assignment binding a variable node to a math expression, applied
 * per model-instance index.
 */
module FunctionNodes {

  /** The math expression of a rule; it is only ever handed to the evaluator. */
  datatype MathNode = MathNode(formula: string)

  /** The evaluator: the value of an expression for one model instance. */
  type Evaluator = (MathNode, int) -> real

  /** The state cell of one variable for one model instance. */
  datatype IndexState = IndexState(value: real, rate: real, hasRule: bool, onlySubstance: bool)

  /** A variable (species, parameter, compartment) with one state cell per instance index. */
  class VariableNode {
    var states: map<int, IndexState>
    var compartment: VariableNode?

    constructor (states: map<int, IndexState>, compartment: VariableNode?)
      ensures this.states == states && this.compartment == compartment
    {
      this.states := states;
      this.compartment := compartment;
    }

    /** setValue: writes the value cell and reports whether it differs from the old one. */
    method SetValue(index: int, v: real) returns (changed: bool)
      requires index in states
      modifies this
      ensures states == old(states)[index := old(states[index]).(value := v)]
      ensures compartment == old(compartment)
      ensures changed == (old(states[index].value) != v)
    {
      changed := states[index].value != v;
      states := states[index := states[index].(value := v)];
    }

    /** setRate: writes the rate cell and reports whether it differs from the old one. */
    method SetRate(index: int, r: real) returns (changed: bool)
      requires index in states
      modifies this
      ensures states == old(states)[index := old(states[index]).(rate := r)]
      ensures compartment == old(compartment)
      ensures changed == (old(states[index].rate) != r)
    {
      changed := states[index].rate != r;
      states := states[index := states[index].(rate := r)];
    }
  }

  /**
   * The rate written for a concentration-based variable: the raw rate scaled
   * by the compartment size `c`, plus `value * dc / c` when the compartment
   * itself changes at rate `dc`.
   */
  function ConcentrationRate(raw: real, c: real, value: real, dc: real): (r: real)
    requires dc != 0.0 ==> c != 0.0
    ensures dc == 0.0 ==> r == raw * c
    ensures dc != 0.0 ==> r * c == raw * c * c + value * dc
  {
    if dc != 0.0 then raw * c + value * dc / c else raw * c
  }

  class FunctionNode {
    const variable: VariableNode?
    const functionMath: MathNode
    var isInitialAssignment: bool
    /** Instance indices at which this node is deleted. */
    var deletedIndices: set<int>

    /** FunctionNode(variable, math): not an initial assignment, nothing deleted. */
    constructor (variable: VariableNode?, math: MathNode)
      ensures this.variable == variable && functionMath == math
      ensures !isInitialAssignment && deletedIndices == {}
    {
      this.variable := variable;
      this.functionMath := math;
      isInitialAssignment := false;
      deletedIndices := {};
    }

    /** FunctionNode(FunctionNode): shares the variable and the math; the flag is not copied. */
    constructor Copy(other: FunctionNode)
      ensures variable == other.variable && functionMath == other.functionMath
      ensures !isInitialAssignment && deletedIndices == {}
    {
      variable := other.variable;
      functionMath := other.functionMath;
      isInitialAssignment := false;
      deletedIndices := {};
    }

    /** setIsInitAssignment: the getter returns what was set last. */
    method SetIsInitAssignment(initAssign: bool)
      modifies this`isInitialAssignment
      ensures IsInitAssignment() == initAssign
    {
      isInitialAssignment := initAssign;
    }

    function IsInitAssignment(): bool
      reads this
    {
      isInitialAssignment
    }

    /**
     * computeFunction: the math evaluated for one instance. It changes
     * nothing, and for a variable with only substance units it is the rate
     * updateRate writes.
     */
    method ComputeFunction(eval: Evaluator, index: int) returns (v: real)
      ensures v == eval(functionMath, index)
      ensures variable != null && index in variable.states && variable.states[index].onlySubstance
              ==> v == RateToWrite(eval, index)
    {
      v := eval(functionMath, index);
    }

    /**
     * The guard of updateVariable: there is a variable, the node is not an
     * initial assignment yielding to a rule on the variable, and the index is
     * not deleted.
     */
    predicate Applies(index: int)
      reads this, variable
      requires variable != null ==> index in variable.states
    {
      variable != null
      && !(isInitialAssignment && variable.states[index].hasRule)
      && index !in deletedIndices
    }

    /**
     * updateVariable: when the guard holds, the variable's value at `index`
     * becomes the evaluated math and the answer is whether it changed;
     * otherwise nothing is written and the answer is false.
     */
    method UpdateVariable(eval: Evaluator, index: int) returns (changed: bool)
      requires variable != null ==> index in variable.states
      modifies variable
      ensures !old(Applies(index)) ==> !changed && (variable != null ==> variable.states == old(variable.states))
      ensures old(Applies(index)) ==> variable.states == old(variable.states)[index := old(variable.states[index]).(value := eval(functionMath, index))]
      ensures old(Applies(index)) ==> changed == (old(variable.states[index].value) != eval(functionMath, index))
      ensures variable != null ==> variable.compartment == old(variable.compartment)
    {
      changed := false;
      if variable != null {
        if !(isInitialAssignment && variable.states[index].hasRule) && index !in deletedIndices {
          var newValue := eval(functionMath, index);
          changed := variable.SetValue(index, newValue);
        }
      }
    }

    /**
     * The rate updateRate writes: the raw evaluated math for an only-substance
     * variable, otherwise the concentration-corrected rate.
     */
    function RateToWrite(eval: Evaluator, index: int): real
      reads this, variable, if variable == null then null else variable.compartment
      requires variable != null && index in variable.states
      requires RateDefined(index)
    {
      var raw := eval(functionMath, index);
      if variable.states[index].onlySubstance then raw
      else
        var comp := variable.compartment.states[index];
        ConcentrationRate(raw, comp.value, variable.states[index].value, comp.rate)
    }

    /**
     * The compartment reads of updateRate succeed: a concentration-based
     * variable has a compartment with a state at `index`, and a changing
     * compartment has a non-zero size (the Java code would otherwise divide
     * by zero and write an infinite or NaN rate).
     */
    predicate RateDefined(index: int)
      reads this, variable, if variable == null then null else variable.compartment
      requires variable != null && index in variable.states
    {
      variable.states[index].onlySubstance
      || (variable.compartment != null && index in variable.compartment.states
          && (variable.compartment.states[index].rate != 0.0 ==> variable.compartment.states[index].value != 0.0))
    }

    /**
     * updateRate: for a present variable at a non-deleted index, writes
     * RateToWrite into the rate cell and reports whether it changed; otherwise
     * writes nothing and answers false.
     */
    method UpdateRate(eval: Evaluator, index: int) returns (changed: bool)
      requires variable != null ==> index in variable.states
      requires variable != null && index !in deletedIndices ==> RateDefined(index)
      modifies variable
      ensures variable == null || old(index in deletedIndices) ==> !changed && (variable != null ==> variable.states == old(variable.states))
      ensures variable != null && old(index !in deletedIndices) ==>
        variable.states == old(variable.states)[index := old(variable.states[index]).(rate := old(RateToWrite(eval, index)))]
        && changed == (old(variable.states[index].rate) != old(RateToWrite(eval, index)))
      ensures variable != null ==> variable.compartment == old(variable.compartment)
    {
      changed := false;
      if variable != null {
        if index !in deletedIndices {
          var variableState := variable.states[index];
          var rate := eval(functionMath, index);
          if !variableState.onlySubstance {
            var comp := variable.compartment;
            var c := comp.states[index].value;
            rate := rate * c;
            var compartmentChange := comp.states[index].rate;
            if compartmentChange != 0.0 {
              rate := rate + variableState.value * compartmentChange / c;
            }
          }
          assert rate == RateToWrite(eval, index);
          changed := variable.SetRate(index, rate);
        }
      }
    }
  }

  /**
   * A rate rule on the variable blocks a replayed initial assignment; without
   * the rule, or for an assignment rule, the guard only asks for a variable
   * and a live index.
   */
  lemma InitialAssignmentYieldsToRule(f: FunctionNode, index: int)
    requires f.variable != null && index in f.variable.states
    ensures f.isInitialAssignment && f.variable.states[index].hasRule ==> !f.Applies(index)
    ensures !f.isInitialAssignment || !f.variable.states[index].hasRule ==>
              (f.Applies(index) <==> index !in f.deletedIndices)
  {
  }
}
