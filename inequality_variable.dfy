/**
 * Inequality variables of the timed zone exploration: Boolean LPN variables
 * named `$...` whose value is a relation between a continuous variable and an
 * integer expression, decided from the continuous variable's zone bounds.
 */
module InequalityVariables {
  import opened Wrappers
  import JavaText

  datatype Port = Input | Output | Internal

  /** One side of the defining relation, as far as the constructor inspects it. */
  datatype Side = Side(text: string, containsCont: bool)

  /** The defining expression tree: a relational operator over two sides. */
  datatype Relation = Relation(op: string, left: Side, right: Side)

  datatype ConstructionError = IllegalArgument | UnsupportedOperation

  datatype InequalityVariable = InequalityVariable(
    name: string,
    initValue: string,
    port: Port,
    tree: Relation,
    continuousName: string)

  /**
   * InequalityVariable(name, initValue, ET, lpn): accepted only for a name that
   * starts with `$`; the variable becomes internal and the continuous variable
   * is taken from the left side when that side holds one, else from the right.
   */
  function New(name: string, initValue: string, et: Relation): (r: Result<InequalityVariable, ConstructionError>)
    ensures r.Err? <==> !JavaText.StartsWith(name, "$")
    ensures r.Err? ==> r.error == IllegalArgument
    ensures r.Ok? ==> r.value.name == name && r.value.initValue == initValue
    ensures r.Ok? ==> r.value.port == Internal && r.value.tree == et
    ensures r.Ok? ==> r.value.continuousName == (if et.left.containsCont then et.left.text else et.right.text)
  {
    if !JavaText.StartsWith(name, "$") then Err(IllegalArgument)
    else
      var cont := if et.left.containsCont then et.left.text else et.right.text;
      Ok(InequalityVariable(name, initValue, Internal, et, cont))
  }

  /** Every variable built by `New` has a name of at least one character, starting with `$`. */
  predicate WellNamed(v: InequalityVariable)
  {
    JavaText.StartsWith(v.name, "$")
  }

  /** InequalityVariable(name, type, initCond): always refused. */
  function NewFromProperties(name: string, varType: string, initCond: map<string, string>): (r: Result<InequalityVariable, ConstructionError>)
    ensures r == Err(UnsupportedOperation)
  {
    Err(UnsupportedOperation)
  }

  /** InequalityVariable(name, type, initValue, port): always refused. */
  function NewWithPort(name: string, varType: string, initValue: string, port: string): (r: Result<InequalityVariable, ConstructionError>)
    ensures r == Err(UnsupportedOperation)
  {
    Err(UnsupportedOperation)
  }

  /** InequalityVariable(name, type): always refused. */
  function NewNameOnly(name: string, varType: string): (r: Result<InequalityVariable, ConstructionError>)
    ensures r == Err(UnsupportedOperation)
  {
    Err(UnsupportedOperation)
  }

  lemma NewIsWellNamed(name: string, initValue: string, et: Relation)
    requires New(name, initValue, et).Ok?
    ensures WellNamed(New(name, initValue, et).value)
    ensures |New(name, initValue, et).value.name| >= 1
  {
  }

  /** toString(): the fixed prefix followed by the name without its leading `$`. */
  function ToString(v: InequalityVariable): (r: string)
    requires WellNamed(v)
    ensures r == "Inequality Variable : " + v.name[1..]
    ensures |r| == 22 + |v.name| - 1
  {
    "Inequality Variable : " + v.name[1..]
  }

  /** isInput(), isOutput(), isInternal(): inequality variables are handled apart from all three. */
  function IsInput(v: InequalityVariable): (b: bool) ensures !b { false }
  function IsOutput(v: InequalityVariable): (b: bool) ensures !b { false }
  function IsInternal(v: InequalityVariable): (b: bool) ensures !b { false }

  /** The declared port is internal even though `IsInternal` answers false. */
  lemma PortIsInternalButNotReported(name: string, initValue: string, et: Relation)
    requires New(name, initValue, et).Ok?
    ensures New(name, initValue, et).value.port == Internal
    ensures !IsInternal(New(name, initValue, et).value)
  {
  }

  predicate IsLess(op: string)
  {
    op == "<" || op == "<="
  }

  /**
   * evaluateInequality: `varOnLeft` says whether the continuous variable is on
   * the left of the relation; `exprValue` is the other side's value truncated to
   * an int; `lower` and `upper` are the variable's bounds in the current zone.
   */
  function EvaluateInequality(varOnLeft: bool, op: string, exprValue: int, lower: int, upper: int): (r: string)
    ensures r == "true" || r == "false"
    ensures varOnLeft && IsLess(op) ==> (r == "true" <==> upper <= exprValue)
    ensures varOnLeft && !IsLess(op) ==> (r == "true" <==> lower >= exprValue)
    ensures !varOnLeft && IsLess(op) ==> (r == "true" <==> exprValue <= lower)
    ensures !varOnLeft && !IsLess(op) ==> (r == "true" <==> exprValue >= upper)
  {
    if varOnLeft then
      if IsLess(op) then (if upper <= exprValue then "true" else "false")
      else (if lower >= exprValue then "true" else "false")
    else
      if IsLess(op) then (if exprValue <= lower then "true" else "false")
      else (if exprValue >= upper then "true" else "false")
  }

  /** The relation `lhs op rhs` for the non-strict operators. */
  predicate Holds(op: string, lhs: int, rhs: int)
    requires op == "<=" || op == ">="
  {
    if op == "<=" then lhs <= rhs else lhs >= rhs
  }

  /**
   * For a non-strict operator and a non-empty range, the answer is "true"
   * exactly when the relation holds for every value the continuous variable
   * can take in the zone.
   */
  lemma EvaluateInequalityMeansWholeRange(varOnLeft: bool, op: string, exprValue: int, lower: int, upper: int)
    requires op == "<=" || op == ">="
    requires lower <= upper
    ensures EvaluateInequality(varOnLeft, op, exprValue, lower, upper) == "true"
      <==> forall v :: lower <= v <= upper ==>
             (if varOnLeft then Holds(op, v, exprValue) else Holds(op, exprValue, v))
  {
    var r := EvaluateInequality(varOnLeft, op, exprValue, lower, upper);
    if r != "true" {
      var v0 := if varOnLeft == (op == "<=") then upper else lower;
      assert lower <= v0 <= upper;
      assert !(if varOnLeft then Holds(op, v0, exprValue) else Holds(op, exprValue, v0));
    }
  }
}
