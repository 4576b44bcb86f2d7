/**
 * Expression nodes of the platu LPN expression language: the bitwise-negation
 * node and the variable leaf it is applied to. A leaf names a variable and the
 * position of its value in the state vector.
 */
module PlatuExpression {
  import opened JavaInt

  datatype ExpressionNode =
    | VarNode(name: string, index: nat)
    | BitNegNode(operand: ExpressionNode)

  /** Every variable leaf reads a position the state vector has. */
  predicate IndicesIn(e: ExpressionNode, len: nat)
  {
    match e
    case VarNode(_, i) => i < len
    case BitNegNode(o) => IndicesIn(o, len)
  }

  predicate Int32Vector(sv: seq<int>)
  {
    forall k :: 0 <= k < |sv| ==> IsInt32(sv[k])
  }

  /** evaluate(int[] stateVector): a negation node yields the bitwise complement of its operand. */
  function Evaluate(e: ExpressionNode, sv: seq<int>): (r: int)
    requires IndicesIn(e, |sv|) && Int32Vector(sv)
    ensures IsInt32(r)
    ensures e.VarNode? ==> r == sv[e.index]
  {
    match e
    case VarNode(_, i) => sv[i]
    case BitNegNode(o) => BitNot32(Evaluate(o, sv))
  }

  /** The complement computed by a negation node is `-v - 1` for the operand's value `v`. */
  lemma EvaluateBitNeg(o: ExpressionNode, sv: seq<int>)
    requires IndicesIn(o, |sv|) && Int32Vector(sv)
    ensures Evaluate(BitNegNode(o), sv) == -Evaluate(o, sv) - 1
  {
    BitNot32IsNegMinusOne(Evaluate(o, sv));
  }

  /** Two nested negation nodes give back the operand's value. */
  lemma DoubleNegation(o: ExpressionNode, sv: seq<int>)
    requires IndicesIn(o, |sv|) && Int32Vector(sv)
    ensures Evaluate(BitNegNode(BitNegNode(o)), sv) == Evaluate(o, sv)
  {
    EvaluateBitNeg(o, sv);
    EvaluateBitNeg(BitNegNode(o), sv);
  }

  /** The variable leaves of an expression. */
  function Leaves(e: ExpressionNode): set<ExpressionNode>
  {
    match e
    case VarNode(_, _) => {e}
    case BitNegNode(o) => Leaves(o)
  }

  /**
   * getVariables(HashSet<VarNode>): adds the expression's variables to the set
   * it is given; a negation node delegates to its operand.
   */
  function GetVariables(e: ExpressionNode, variables: set<ExpressionNode>): (r: set<ExpressionNode>)
    ensures r == variables + Leaves(e)
    ensures forall v :: v in r - variables ==> v.VarNode?
  {
    match e
    case VarNode(_, _) => variables + {e}
    case BitNegNode(o) => GetVariables(o, variables)
  }

  /** toString(): a negation node prints as `~` followed by its operand. */
  function ToString(e: ExpressionNode): string
  {
    match e
    case VarNode(n, _) => n
    case BitNegNode(o) => "~" + ToString(o)
  }

  /** Number of negation nodes above the leaf. */
  function Depth(e: ExpressionNode): nat
  {
    match e
    case VarNode(_, _) => 0
    case BitNegNode(o) => 1 + Depth(o)
  }

  function Leaf(e: ExpressionNode): (v: ExpressionNode)
    ensures v.VarNode?
  {
    match e
    case VarNode(_, _) => e
    case BitNegNode(o) => Leaf(o)
  }

  /** Number of `~` characters at the start of `s`. */
  function LeadingTildes(s: string): nat
  {
    if |s| > 0 && s[0] == '~' then 1 + LeadingTildes(s[1..]) else 0
  }

  /**
   * The printed form is one `~` per negation node followed by the leaf's name,
   * so the nesting depth can be read back from the string.
   */
  lemma {:induction false} ToStringShape(e: ExpressionNode)
    requires |Leaf(e).name| == 0 || Leaf(e).name[0] != '~'
    ensures ToString(e) == seq(Depth(e), _ => '~') + Leaf(e).name
    ensures LeadingTildes(ToString(e)) == Depth(e)
  {
    match e
    case VarNode(n, _) =>
    case BitNegNode(o) =>
      ToStringShape(o);
      assert ToString(e)[1..] == ToString(o);
  }

  /**
   * copy(HashMap): a negation node copies to a new negation node around the
   * operand's copy; a leaf copies to a leaf with the same name and index.
   */
  function Copy(e: ExpressionNode): ExpressionNode
  {
    match e
    case VarNode(n, i) => VarNode(n, i)
    case BitNegNode(o) => BitNegNode(Copy(o))
  }

  /** A copy is structurally equal to the original, so it evaluates and prints the same. */
  lemma {:induction false} CopyIsEqual(e: ExpressionNode)
    ensures Copy(e) == e
    ensures ToString(Copy(e)) == ToString(e)
    ensures Leaves(Copy(e)) == Leaves(e)
  {
    match e
    case VarNode(_, _) =>
    case BitNegNode(o) => CopyIsEqual(o);
  }
}
