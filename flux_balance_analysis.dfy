/**
 * Flux balance analysis: an SBML model with flux bounds and objectives
 * (the fbc package) becomes a linear program over the reactions' fluxes:
 * minimise the objective subject to one inequality per bound, and to
 * steady state (one equality per species that is not a boundary species)
 * plus one equality per fixed flux. The solver is not part of this model;
 * its outcome is a parameter, mapped to the result codes the analysis
 * returns.
 */
module FluxBalance {
  import opened Wrappers
  import opened SbmlDocuments
  import JavaText

  datatype Operation = GreaterEqual | LessEqual | Equal | OtherOperation

  datatype FluxBound = FluxBound(reaction: string, operation: Operation, value: real)

  datatype FluxObjective = FluxObjective(reaction: string, coefficient: real)

  datatype ObjectiveType = Minimize | Maximize

  datatype Objective = Objective(id: string, objectiveType: ObjectiveType, fluxObjectives: seq<FluxObjective>)

  /** The fbc plugin of the model: its flux bounds and objectives, and the id of the active objective. */
  datatype FbcPlugin = FbcPlugin(fluxBounds: seq<FluxBound>, objectives: seq<Objective>, activeObjective: string)

  /** A linear inequality `coefficients . x + constant <= 0`. */
  datatype Inequality = Inequality(coefficients: seq<real>, constant: real)

  /**
   * The optimisation request: minimise `objective . x` subject to the
   * inequalities (an unfilled slot of the array is None) and to
   * `equalities . x == rhs`.
   */
  datatype Problem = Problem(objective: seq<real>, inequalities: seq<Option<Inequality>>,
                             equalities: seq<seq<real>>, rhs: seq<real>)

  /** What the solver did: returned a code, or threw an exception with a message (possibly null). */
  datatype SolverOutcome = Solved(code: int) | Failed(message: Option<string>)

  const NULL_POINTER: string := "NullPointerException"
  const INDEX_OUT_OF_BOUNDS: string := "ArrayIndexOutOfBoundsException"

  const NOT_STRICTLY_FEASIBLE: string := "initial point must be strictly feasible"
  const INFEASIBLE: string := "Infeasible problem"
  const SINGULAR_KKT: string := "singular KKT system"

  predicate Distinct<T(==)>(s: seq<T>)
  {
    forall i, j :: 0 <= i < j < |s| ==> s[i] != s[j]
  }

  // ---------------------------------------------------------------------
  // Result codes

  /** The code for a solver exception's message. */
  function ErrorCode(message: string): int
  {
    if message == NOT_STRICTLY_FEASIBLE then -2
    else if message == INFEASIBLE then -3
    else if message == SINGULAR_KKT then -4
    else -5
  }

  /** The three known messages get -2, -3 and -4, each exactly its own; every other message gets -5. */
  lemma ErrorCodeSpec(message: string)
    ensures -5 <= ErrorCode(message) <= -2
    ensures ErrorCode(message) == -2 <==> message == NOT_STRICTLY_FEASIBLE
    ensures ErrorCode(message) == -3 <==> message == INFEASIBLE
    ensures ErrorCode(message) == -4 <==> message == SINGULAR_KKT
    ensures ErrorCode(message) == -5 <==> message !in {NOT_STRICTLY_FEASIBLE, INFEASIBLE, SINGULAR_KKT}
  {
  }

  /** The analysis' result once the solver has run; a null message makes the handler itself throw. */
  function OutcomeCode(o: SolverOutcome): Result<int, string>
  {
    match o
    case Solved(code) => Ok(code)
    case Failed(None) => Err(NULL_POINTER)
    case Failed(Some(m)) => Ok(ErrorCode(m))
  }

  // ---------------------------------------------------------------------
  // vectorToString

  /** One term of the rendering: `name`, `-name` or `value*name`; `render` stands for Java's double-to-string. */
  function Term(name: string, value: real, render: real -> string): string
  {
    if value == 1.0 then name else if value == -1.0 then "-" + name else render(value) + "*" + name
  }

  /** The string vectorToString builds, key by key: zero entries are skipped, " + " separates terms from a non-empty prefix. */
  function Rendered(values: seq<real>, keys: seq<string>, index: map<string, nat>, render: real -> string): string
    requires forall k :: k in keys ==> k in index && index[k] < |values|
  {
    if keys == [] then ""
    else
      var prev := Rendered(values, keys[..|keys| - 1], index, render);
      var last := keys[|keys| - 1];
      var value := values[index[last]];
      if value == 0.0 then prev
      else (if prev != "" then prev + " + " else prev) + Term(last, value, render)
  }

  /** The terms of the non-zero entries, in key order. */
  function Terms(values: seq<real>, keys: seq<string>, index: map<string, nat>, render: real -> string): seq<string>
    requires forall k :: k in keys ==> k in index && index[k] < |values|
  {
    if keys == [] then []
    else
      var last := keys[|keys| - 1];
      var value := values[index[last]];
      Terms(values, keys[..|keys| - 1], index, render) + (if value == 0.0 then [] else [Term(last, value, render)])
  }

  /**
   * With non-empty reaction ids the rendering is the terms of the non-zero
   * entries joined by " + ", and empty exactly when every entry is zero.
   */
  lemma {:induction false} RenderedJoinsTerms(values: seq<real>, keys: seq<string>, index: map<string, nat>, render: real -> string)
    requires forall k :: k in keys ==> k in index && index[k] < |values|
    requires forall k :: k in keys ==> k != ""
    ensures Rendered(values, keys, index, render) == JavaText.Join(Terms(values, keys, index, render), " + ")
    ensures Rendered(values, keys, index, render) == "" <==> forall k :: k in keys ==> values[index[k]] == 0.0
    ensures Terms(values, keys, index, render) == [] <==> forall k :: k in keys ==> values[index[k]] == 0.0
  {
    if keys != [] {
      var init := keys[..|keys| - 1];
      var last := keys[|keys| - 1];
      assert keys == init + [last];
      assert forall k :: k in init ==> k in keys;
      RenderedJoinsTerms(values, init, index, render);
      var ts := Terms(values, init, index, render);
      var prev := Rendered(values, init, index, render);
      var value := values[index[last]];
      if value != 0.0 {
        var t := Term(last, value, render);
        assert last in keys;
        assert |t| >= |last| > 0;
        assert Terms(values, keys, index, render) == ts + [t];
        if ts != [] {
          assert (ts + [t])[..|ts|] == ts;
          assert JavaText.Join(ts + [t], " + ") == JavaText.Join(ts, " + ") + " + " + t;
          assert prev != "";
        } else {
          assert prev == "";
          assert JavaText.Join(ts + [t], " + ") == t;
        }
      } else {
        assert Terms(values, keys, index, render) == ts + [];
        assert ts + [] == ts;
        assert Rendered(values, keys, index, render) == prev;
      }
    }
  }

  method VectorToString(objective: array<real>, keys: seq<string>, reactionIndex: map<string, nat>, render: real -> string)
    returns (result: string)
    requires forall k :: k in keys ==> k in reactionIndex && reactionIndex[k] < objective.Length
    ensures result == Rendered(objective[..], keys, reactionIndex, render)
  {
    result := "";
    var i := 0;
    while i < |keys|
      invariant 0 <= i <= |keys|
      invariant result == Rendered(objective[..], keys[..i], reactionIndex, render)
    {
      var reaction := keys[i];
      var value := objective[reactionIndex[reaction]];
      if value == 1.0 {
        if result != "" { result := result + " + "; }
        result := result + reaction;
      } else if value == -1.0 {
        if result != "" { result := result + " + "; }
        result := result + "-" + reaction;
      } else if value != 0.0 {
        if result != "" { result := result + " + "; }
        result := result + render(value) + "*" + reaction;
      }
      assert keys[..i + 1][..i] == keys[..i];
      i := i + 1;
    }
    assert keys[..i] == keys;
  }

  // ---------------------------------------------------------------------
  // Reaction indexing

  /** The reactions the bounds name, in order of first appearance. */
  function FirstSeen(bounds: seq<FluxBound>): seq<string>
  {
    if bounds == [] then []
    else
      var prev := FirstSeen(bounds[..|bounds| - 1]);
      var r := bounds[|bounds| - 1].reaction;
      if r in prev then prev else prev + [r]
  }

  /** Each element of `order` mapped to its position. */
  function Positions(order: seq<string>): map<string, nat>
  {
    if order == [] then map[] else Positions(order[..|order| - 1])[order[|order| - 1] := |order| - 1]
  }

  /** FirstSeen lists each reaction at most once. */
  lemma {:induction false} FirstSeenDistinct(bounds: seq<FluxBound>)
    ensures Distinct(FirstSeen(bounds))
  {
    if bounds != [] {
      FirstSeenDistinct(bounds[..|bounds| - 1]);
    }
  }

  /** FirstSeen lists exactly the reactions some bound names. */
  lemma {:induction false} FirstSeenMembers(bounds: seq<FluxBound>)
    ensures forall x :: x in FirstSeen(bounds) <==> exists j :: 0 <= j < |bounds| && bounds[j].reaction == x
  {
    if bounds != [] {
      var init := bounds[..|bounds| - 1];
      FirstSeenMembers(init);
      var prev := FirstSeen(init);
      forall x
        ensures x in FirstSeen(bounds) <==> exists j :: 0 <= j < |bounds| && bounds[j].reaction == x
      {
        if x in prev {
          var j :| 0 <= j < |init| && init[j].reaction == x;
          assert bounds[j].reaction == x;
        }
        if exists j :: 0 <= j < |bounds| && bounds[j].reaction == x {
          var j :| 0 <= j < |bounds| && bounds[j].reaction == x;
          if j < |init| {
            assert init[j].reaction == x;
          }
        }
      }
    }
  }

  /** A reaction FirstSeen lists before another was named by a bound before any bound naming the other. */
  lemma {:induction false} FirstSeenOrder(bounds: seq<FluxBound>)
    ensures forall i, i', j' :: 0 <= i < i' < |FirstSeen(bounds)| && 0 <= j' < |bounds| && bounds[j'].reaction == FirstSeen(bounds)[i']
              ==> exists j :: 0 <= j < j' && bounds[j].reaction == FirstSeen(bounds)[i]
  {
    if bounds != [] {
      var init := bounds[..|bounds| - 1];
      var r := bounds[|bounds| - 1].reaction;
      FirstSeenOrder(init);
      FirstSeenMembers(init);
      var prev := FirstSeen(init);
      var fs := FirstSeen(bounds);
      forall i, i', j' | 0 <= i < i' < |fs| && 0 <= j' < |bounds| && bounds[j'].reaction == fs[i']
        ensures exists j :: 0 <= j < j' && bounds[j].reaction == fs[i]
      {
        if i' < |prev| && j' < |init| {
          assert init[j'].reaction == prev[i'];
          var j :| 0 <= j < j' && init[j].reaction == prev[i];
          assert bounds[j].reaction == fs[i];
        } else if i' < |prev| {
          // j' is the last bound; prev[i'] also occurs among the earlier ones
          assert prev[i'] in prev;
          var k :| 0 <= k < |init| && init[k].reaction == prev[i'];
          var j :| 0 <= j < k && init[j].reaction == prev[i];
          assert bounds[j].reaction == fs[i];
        } else {
          // fs[i'] is the new reaction r, first named by the last bound
          assert fs[i'] == r && r !in prev;
          assert prev[i] in prev;
          var j :| 0 <= j < |init| && init[j].reaction == prev[i];
          assert bounds[j].reaction == fs[i];
          assert forall jj :: 0 <= jj < |init| ==> init[jj].reaction != r;
          assert !(j' < |init|);
        }
      }
    }
  }

  /**
   * FirstSeen lists each bounded reaction exactly once, and a reaction
   * listed before another was named by an earlier bound.
   */
  lemma FirstSeenSpec(bounds: seq<FluxBound>)
    ensures Distinct(FirstSeen(bounds))
    ensures forall x :: x in FirstSeen(bounds) <==> exists j :: 0 <= j < |bounds| && bounds[j].reaction == x
    ensures forall i, i', j' :: 0 <= i < i' < |FirstSeen(bounds)| && 0 <= j' < |bounds| && bounds[j'].reaction == FirstSeen(bounds)[i']
              ==> exists j :: 0 <= j < j' && bounds[j].reaction == FirstSeen(bounds)[i]
  {
    FirstSeenDistinct(bounds);
    FirstSeenMembers(bounds);
    FirstSeenOrder(bounds);
  }

  /** For distinct elements, Positions maps exactly them, each to its position. */
  lemma {:induction false} PositionsSpec(order: seq<string>)
    requires Distinct(order)
    ensures forall x :: x in Positions(order) <==> x in order
    ensures forall i :: 0 <= i < |order| ==> Positions(order)[order[i]] == i
    ensures |Positions(order)| == |order|
  {
    if order != [] {
      var init := order[..|order| - 1];
      PositionsSpec(init);
      assert order[|order| - 1] !in init;
      assert order == init + [order[|order| - 1]];
    }
  }

  /**
   * reactionIndex: every reaction a bound names, and only those, numbered
   * 0, 1, 2, ... in order of first appearance among the bounds.
   */
  lemma ReactionIndexSpec(bounds: seq<FluxBound>)
    ensures var index := Positions(FirstSeen(bounds));
      && (forall x :: x in index <==> exists j :: 0 <= j < |bounds| && bounds[j].reaction == x)
      && |index| == |FirstSeen(bounds)|
      && (forall x :: x in index ==> index[x] < |FirstSeen(bounds)| && FirstSeen(bounds)[index[x]] == x)
  {
    FirstSeenSpec(bounds);
    PositionsSpec(FirstSeen(bounds));
    var fs := FirstSeen(bounds);
    forall x | x in Positions(fs)
      ensures Positions(fs)[x] < |fs| && fs[Positions(fs)[x]] == x
    {
      var i :| 0 <= i < |fs| && fs[i] == x;
    }
  }

  /** One more bound: its reaction is new exactly when it is not yet numbered, and then gets the next number. */
  lemma ReactionIndexStep(bounds: seq<FluxBound>, l: nat)
    requires l < |bounds|
    ensures var before := FirstSeen(bounds[..l]);
      && (bounds[l].reaction in Positions(before) <==> bounds[l].reaction in before)
      && FirstSeen(bounds[..l + 1]) == (if bounds[l].reaction in before then before else before + [bounds[l].reaction])
      && Positions(before + [bounds[l].reaction]) == Positions(before)[bounds[l].reaction := |before|]
  {
    var before := FirstSeen(bounds[..l]);
    FirstSeenSpec(bounds[..l]);
    PositionsSpec(before);
    assert bounds[..l + 1][..l] == bounds[..l];
    assert (before + [bounds[l].reaction])[..|before|] == before;
  }

  /** The first loop of PerformFluxBalanceAnalysis: numbering the bounded reactions. */
  method ReactionIndex(bounds: seq<FluxBound>) returns (reactionIndex: map<string, nat>)
    ensures reactionIndex == Positions(FirstSeen(bounds))
  {
    reactionIndex := map[];
    var kp := 0;
    var l := 0;
    while l < |bounds|
      invariant 0 <= l <= |bounds|
      invariant reactionIndex == Positions(FirstSeen(bounds[..l]))
      invariant kp == |FirstSeen(bounds[..l])|
    {
      ReactionIndexStep(bounds, l);
      if bounds[l].reaction !in reactionIndex {
        reactionIndex := reactionIndex[bounds[l].reaction := kp];
        kp := kp + 1;
      }
      l := l + 1;
    }
    assert bounds[..l] == bounds;
  }

  // ---------------------------------------------------------------------
  // Rows and dot products

  /** A row of `width` zeros except `v` at column `k`: R with one entry set. */
  function Row(width: nat, k: nat, v: real): (r: seq<real>)
    ensures |r| == width
  {
    seq(width, i => if i == k then v else 0.0)
  }

  function Zeros(width: nat): (r: seq<real>)
    ensures |r| == width
  {
    seq(width, _ => 0.0)
  }

  /** The dot product. */
  function Dot(a: seq<real>, x: seq<real>): real
    requires |a| == |x|
  {
    if a == [] then 0.0 else Dot(a[..|a| - 1], x[..|x| - 1]) + a[|a| - 1] * x[|x| - 1]
  }

  /** A row with one entry `v` at column `k` picks out `v` times the k-th component. */
  lemma {:induction false} DotRow(width: nat, k: nat, v: real, x: seq<real>)
    requires |x| == width
    ensures Dot(Row(width, k, v), x) == if k < width then v * x[k] else 0.0
  {
    if width > 0 {
      assert Row(width, k, v)[..width - 1] == Row(width - 1, k, v);
      DotRow(width - 1, k, v, x[..width - 1]);
      if k < width - 1 {
        assert x[..width - 1][k] == x[k];
      }
    }
  }

  // ---------------------------------------------------------------------
  // The objective

  /**
   * The objective array: each flux objective writes its coefficient, negated
   * unless the objective minimises, at its reaction's index; an unindexed
   * reaction is a null lookup, an index past the reaction count is out of
   * bounds.
   */
  function ObjectiveVector(fos: seq<FluxObjective>, t: ObjectiveType, index: map<string, nat>, width: nat)
    : (r: Result<seq<real>, string>)
    ensures r.Ok? ==> |r.value| == width
    ensures r.Err? ==> r.error == NULL_POINTER || r.error == INDEX_OUT_OF_BOUNDS
  {
    if fos == [] then Ok(Zeros(width))
    else
      var prev := ObjectiveVector(fos[..|fos| - 1], t, index, width);
      var fo := fos[|fos| - 1];
      if prev.Err? then prev
      else if fo.reaction !in index then Err(NULL_POINTER)
      else if index[fo.reaction] >= width then Err(INDEX_OUT_OF_BOUNDS)
      else Ok(prev.value[index[fo.reaction] := if t == Minimize then fo.coefficient else (-1.0) * fo.coefficient])
  }

  /**
   * The objective is built exactly when every flux objective's reaction is
   * indexed below the reaction count; a maximised objective is the
   * minimised one negated, entry by entry; a column no flux objective names
   * stays zero.
   */
  lemma {:induction false} ObjectiveSpec(fos: seq<FluxObjective>, index: map<string, nat>, width: nat)
    ensures ObjectiveVector(fos, Minimize, index, width).Ok?
            <==> forall j :: 0 <= j < |fos| ==> fos[j].reaction in index && index[fos[j].reaction] < width
    ensures ObjectiveVector(fos, Maximize, index, width).Ok? == ObjectiveVector(fos, Minimize, index, width).Ok?
    ensures ObjectiveVector(fos, Minimize, index, width).Ok? ==>
              forall k :: 0 <= k < width ==>
                ObjectiveVector(fos, Maximize, index, width).value[k] == -ObjectiveVector(fos, Minimize, index, width).value[k]
    ensures ObjectiveVector(fos, Minimize, index, width).Ok? ==>
              forall k :: 0 <= k < width && (forall j :: 0 <= j < |fos| ==> index[fos[j].reaction] != k) ==>
                ObjectiveVector(fos, Minimize, index, width).value[k] == 0.0
  {
    if fos != [] {
      var init := fos[..|fos| - 1];
      ObjectiveSpec(init, index, width);
      assert forall j :: 0 <= j < |init| ==> init[j] == fos[j];
    }
  }

  /** The objective loop of PerformFluxBalanceAnalysis. */
  method ObjectiveArray(fos: seq<FluxObjective>, t: ObjectiveType, index: map<string, nat>, width: nat)
    returns (r: Result<array<real>, string>)
    ensures ObjectiveVector(fos, t, index, width).Ok? <==> r.Ok?
    ensures r.Ok? ==> fresh(r.value) && r.value[..] == ObjectiveVector(fos, t, index, width).value
    ensures r.Err? ==> r.error == ObjectiveVector(fos, t, index, width).error
  {
    var objective := new real[width](_ => 0.0);
    assert objective[..] == Zeros(width);
    var j := 0;
    while j < |fos|
      invariant 0 <= j <= |fos|
      invariant ObjectiveVector(fos[..j], t, index, width).Ok?
      invariant objective[..] == ObjectiveVector(fos[..j], t, index, width).value
    {
      assert fos[..j + 1][..j] == fos[..j];
      var fo := fos[j];
      if fo.reaction !in index {
        ObjectiveErrorPersists(fos, t, index, width, j + 1);
        return Err(NULL_POINTER);
      }
      if index[fo.reaction] >= width {
        ObjectiveErrorPersists(fos, t, index, width, j + 1);
        return Err(INDEX_OUT_OF_BOUNDS);
      }
      if t == Minimize {
        objective[index[fo.reaction]] := fo.coefficient;
      } else {
        objective[index[fo.reaction]] := (-1.0) * fo.coefficient;
      }
      j := j + 1;
    }
    assert fos[..j] == fos;
    return Ok(objective);
  }

  /** Once a prefix fails, the whole objective fails the same way. */
  lemma {:induction false} ObjectiveErrorPersists(fos: seq<FluxObjective>, t: ObjectiveType, index: map<string, nat>, width: nat, k: nat)
    requires k <= |fos| && ObjectiveVector(fos[..k], t, index, width).Err?
    ensures ObjectiveVector(fos, t, index, width) == ObjectiveVector(fos[..k], t, index, width)
    decreases |fos|
  {
    if k < |fos| {
      var init := fos[..|fos| - 1];
      assert init[..k] == fos[..k];
      ObjectiveErrorPersists(init, t, index, width, k);
    } else {
      assert fos[..k] == fos;
    }
  }

  // ---------------------------------------------------------------------
  // The inequalities

  /** Every bound's reaction has an index below the number of indexed reactions. */
  predicate Indexes(bounds: seq<FluxBound>, index: map<string, nat>)
  {
    forall j :: 0 <= j < |bounds| ==> bounds[j].reaction in index && index[bounds[j].reaction] < |index|
  }

  /** The reaction index built from the bounds covers them. */
  lemma IndexCoversBounds(bounds: seq<FluxBound>)
    ensures Indexes(bounds, Positions(FirstSeen(bounds)))
  {
    ReactionIndexSpec(bounds);
    var index := Positions(FirstSeen(bounds));
    forall j | 0 <= j < |bounds|
      ensures bounds[j].reaction in index && index[bounds[j].reaction] < |index|
    {
      assert exists jj :: 0 <= jj < |bounds| && bounds[jj].reaction == bounds[j].reaction;
    }
  }

  function NumEquals(bounds: seq<FluxBound>): nat
  {
    if bounds == [] then 0
    else NumEquals(bounds[..|bounds| - 1]) + (if bounds[|bounds| - 1].operation == Equal then 1 else 0)
  }

  /** The inequality of one bound: `-x + value <= 0` for `>=`, `x - value <= 0` for `<=`, none otherwise. */
  function InequalityOf(b: FluxBound, index: map<string, nat>): Option<Inequality>
    requires b.reaction in index && index[b.reaction] < |index|
  {
    match b.operation
    case GreaterEqual => Some(Inequality(Row(|index|, index[b.reaction], -1.0), b.value))
    case LessEqual => Some(Inequality(Row(|index|, index[b.reaction], 1.0), if b.value != 0.0 then (-1.0) * b.value else b.value))
    case _ => None
  }

  /**
   * A flux vector satisfies a bound's inequality exactly when the bounded
   * reaction's flux is at least (`>=`) or at most (`<=`) the bound's value.
   */
  lemma InequalityMeaning(b: FluxBound, index: map<string, nat>, x: seq<real>)
    requires b.reaction in index && index[b.reaction] < |index| && |x| == |index|
    ensures b.operation == GreaterEqual ==>
              var q := InequalityOf(b, index).value; Dot(q.coefficients, x) + q.constant <= 0.0 <==> x[index[b.reaction]] >= b.value
    ensures b.operation == LessEqual ==>
              var q := InequalityOf(b, index).value; Dot(q.coefficients, x) + q.constant <= 0.0 <==> x[index[b.reaction]] <= b.value
    ensures InequalityOf(b, index).None? <==> b.operation == Equal || b.operation == OtherOperation
  {
    var k := index[b.reaction];
    match b.operation
    case GreaterEqual =>
      DotRow(|index|, k, -1.0, x);
      assert Dot(InequalityOf(b, index).value.coefficients, x) == -x[k];
    case LessEqual =>
      DotRow(|index|, k, 1.0, x);
      assert Dot(InequalityOf(b, index).value.coefficients, x) == x[k];
      assert InequalityOf(b, index).value.constant == -b.value;
    case _ =>
  }

  /** The inequalities filled in, in bound order. */
  function Filled(bounds: seq<FluxBound>, index: map<string, nat>): seq<Inequality>
    requires Indexes(bounds, index)
  {
    if bounds == [] then []
    else
      var b := bounds[|bounds| - 1];
      Filled(bounds[..|bounds| - 1], index) + (if InequalityOf(b, index).Some? then [InequalityOf(b, index).value] else [])
  }

  /** The inequality array: one slot per bound that is not `==`, the `>=` and `<=` ones filled in order, the rest left null. */
  function InequalitySlots(bounds: seq<FluxBound>, index: map<string, nat>): seq<Option<Inequality>>
    requires Indexes(bounds, index)
  {
    FilledFits(bounds, index, |bounds|);
    assert bounds[..|bounds|] == bounds;
    var f := Filled(bounds, index);
    seq(|bounds| - NumEquals(bounds), i => if 0 <= i < |f| then Some(f[i]) else None)
  }

  /** Equalities and filled inequalities together never outnumber the bounds, prefix by prefix. */
  lemma {:induction false} FilledFits(bounds: seq<FluxBound>, index: map<string, nat>, k: nat)
    requires Indexes(bounds, index) && k <= |bounds|
    ensures assert Indexes(bounds[..k], index); |Filled(bounds[..k], index)| + NumEquals(bounds) <= |bounds|
    decreases |bounds|
  {
    assert Indexes(bounds[..k], index);
    if bounds != [] {
      var init := bounds[..|bounds| - 1];
      assert Indexes(init, index);
      if k < |bounds| {
        assert init[..k] == bounds[..k];
        FilledFits(init, index, k);
      } else {
        assert bounds[..k] == bounds;
        FilledFits(init, index, |init|);
        assert init[..|init|] == init;
      }
    }
  }

  /** One pass of the inequality loop: the row R and the constant for one bound. */
  method BoundInequality(bound: FluxBound, index: map<string, nat>) returns (q: Option<Inequality>)
    requires bound.reaction in index && index[bound.reaction] < |index|
    ensures q == InequalityOf(bound, index)
  {
    var boundVal := bound.value;
    var r := new real[|index|](_ => 0.0);
    q := None;
    if bound.operation == GreaterEqual {
      r[index[bound.reaction]] := -1.0;
      assert r[..] == Row(|index|, index[bound.reaction], -1.0);
      q := Some(Inequality(r[..], boundVal));
    } else if bound.operation == LessEqual {
      r[index[bound.reaction]] := 1.0;
      assert r[..] == Row(|index|, index[bound.reaction], 1.0);
      if boundVal != 0.0 {
        boundVal := (-1.0) * boundVal;
      }
      q := Some(Inequality(r[..], boundVal));
    }
  }

  /** Filled grows by the next bound's inequality, if it has one. */
  lemma FilledStep(bounds: seq<FluxBound>, index: map<string, nat>, j: nat)
    requires Indexes(bounds, index) && j < |bounds|
    ensures Indexes(bounds[..j], index) && Indexes(bounds[..j + 1], index)
    ensures Filled(bounds[..j + 1], index)
            == Filled(bounds[..j], index) + (if InequalityOf(bounds[j], index).Some? then [InequalityOf(bounds[j], index).value] else [])
  {
    assert Indexes(bounds[..j], index);
    assert Indexes(bounds[..j + 1], index);
    assert bounds[..j + 1][..j] == bounds[..j];
  }

  /** Stores `x` in the first null slot after the inequalities `f`. */
  method PutInequality(inequalities: array<Option<Inequality>>, ghost f: seq<Inequality>, m: nat, x: Inequality)
    requires m == |f| < inequalities.Length
    requires forall i :: 0 <= i < inequalities.Length ==> inequalities[i] == Slots(f, inequalities.Length)[i]
    modifies inequalities
    ensures forall i :: 0 <= i < inequalities.Length ==> inequalities[i] == Slots(f + [x], inequalities.Length)[i]
  {
    SlotsPush(f, inequalities.Length, x);
    inequalities[m] := Some(x);
  }

  /** One pass of the inequality loop: bound `j`'s inequality, if it has one, stored after those of the bounds before it. */
  method InequalityStep(bounds: seq<FluxBound>, index: map<string, nat>, j: nat,
                        inequalities: array<Option<Inequality>>, m: nat) returns (m': nat)
    requires Indexes(bounds, index) && j < |bounds| && NumEquals(bounds) + inequalities.Length == |bounds|
    requires Indexes(bounds[..j], index) && m == |Filled(bounds[..j], index)|
    requires forall i :: 0 <= i < inequalities.Length ==> inequalities[i] == Slots(Filled(bounds[..j], index), inequalities.Length)[i]
    modifies inequalities
    ensures Indexes(bounds[..j + 1], index) && m' == |Filled(bounds[..j + 1], index)| <= inequalities.Length
    ensures forall i :: 0 <= i < inequalities.Length ==> inequalities[i] == Slots(Filled(bounds[..j + 1], index), inequalities.Length)[i]
  {
    FilledStep(bounds, index, j);
    FilledFits(bounds, index, j + 1);
    ghost var f := Filled(bounds[..j], index);
    var q := BoundInequality(bounds[j], index);
    m' := m;
    if q.Some? {
      PutInequality(inequalities, f, m, q.value);
      m' := m + 1;
    }
  }

  /** The inequality loop of PerformFluxBalanceAnalysis. */
  method InequalityArray(bounds: seq<FluxBound>, index: map<string, nat>, numEquals: nat)
    returns (inequalities: array<Option<Inequality>>)
    requires Indexes(bounds, index) && numEquals == NumEquals(bounds)
    ensures fresh(inequalities) && inequalities[..] == InequalitySlots(bounds, index)
  {
    FilledFits(bounds, index, |bounds|);
    assert bounds[..|bounds|] == bounds;
    inequalities := new Option<Inequality>[|bounds| - numEquals](_ => None);
    var m := 0;
    var j := 0;
    while j < |bounds|
      invariant 0 <= j <= |bounds|
      invariant Indexes(bounds[..j], index) && m == |Filled(bounds[..j], index)|
      invariant forall i :: 0 <= i < inequalities.Length ==> inequalities[i] == Slots(Filled(bounds[..j], index), inequalities.Length)[i]
    {
      m := InequalityStep(bounds, index, j, inequalities, m);
      j := j + 1;
    }
    assert bounds[..j] == bounds;
    assert inequalities[..] == Slots(Filled(bounds, index), inequalities.Length);
  }

  /** An array of `n` slots holding `f` in order, the rest null. */
  function Slots(f: seq<Inequality>, n: nat): (r: seq<Option<Inequality>>)
    ensures |r| == n
  {
    seq(n, i => if 0 <= i < |f| then Some(f[i]) else None)
  }

  lemma SlotsPush(f: seq<Inequality>, n: nat, x: Inequality)
    requires |f| < n
    ensures Slots(f, n)[|f| := Some(x)] == Slots(f + [x], n)
  {
  }

  // ---------------------------------------------------------------------
  // The equalities

  /** A stoichiometry as written into the matrix: negated for a reactant. */
  function Signed(negate: bool, v: real): real
  {
    if negate then -v else v
  }

  /**
   * The writes of one reaction's reactants (`negate`) or products
   * into the row of species `sid`, reference by reference: each reference
   * to the species sets the reaction's column (`add` false, as the analysis
   * is written) or adds to it (`add` true). A matching reference whose
   * reaction is not indexed is a null lookup; a column past the row is out
   * of bounds.
   */
  function RefsFold(row: seq<real>, refs: seq<SpeciesReference>, sid: string, rid: string,
                    index: map<string, nat>, negate: bool, add: bool): (r: Result<seq<real>, string>)
    ensures r.Ok? ==> |r.value| == |row|
    ensures r.Err? ==> r.error == NULL_POINTER || r.error == INDEX_OUT_OF_BOUNDS
  {
    if refs == [] then Ok(row)
    else
      var prev := RefsFold(row, refs[..|refs| - 1], sid, rid, index, negate, add);
      var sr := refs[|refs| - 1];
      if prev.Err? || sr.species != sid then prev
      else if rid !in index then Err(NULL_POINTER)
      else if index[rid] >= |prev.value| then Err(INDEX_OUT_OF_BOUNDS)
      else
        var written := Signed(negate, sr.stoichiometry);
        Ok(prev.value[index[rid] := if add then prev.value[index[rid]] + written else written])
  }

  /** The writes of every reaction, reactants before products, into the row of species `sid`. */
  function ReactionsFold(row: seq<real>, reactions: seq<Reaction>, sid: string, index: map<string, nat>, add: bool)
    : (r: Result<seq<real>, string>)
    ensures r.Ok? ==> |r.value| == |row|
    ensures r.Err? ==> r.error == NULL_POINTER || r.error == INDEX_OUT_OF_BOUNDS
  {
    if reactions == [] then Ok(row)
    else
      var prev := ReactionsFold(row, reactions[..|reactions| - 1], sid, index, add);
      var rx := reactions[|reactions| - 1];
      if prev.Err? then prev
      else
        var afterReactants := RefsFold(prev.value, rx.reactants, sid, rx.id, index, true, add);
        if afterReactants.Err? then afterReactants
        else RefsFold(afterReactants.value, rx.products, sid, rx.id, index, false, add)
  }

  /** The steady-state row of species `sid` as the analysis writes it: a later reference overwrites an earlier one. */
  function SpeciesRowAsWritten(reactions: seq<Reaction>, sid: string, index: map<string, nat>, width: nat)
    : Result<seq<real>, string>
  {
    ReactionsFold(Zeros(width), reactions, sid, index, false)
  }

  /** The steady-state row of species `sid`: its net stoichiometry in each reaction. */
  function NetSpeciesRow(reactions: seq<Reaction>, sid: string, index: map<string, nat>, width: nat)
    : Result<seq<real>, string>
  {
    ReactionsFold(Zeros(width), reactions, sid, index, true)
  }

  /** The total stoichiometry of the references to species `sid`. */
  function StoichSum(refs: seq<SpeciesReference>, sid: string): real
  {
    if refs == [] then 0.0
    else StoichSum(refs[..|refs| - 1], sid) + (if refs[|refs| - 1].species == sid then refs[|refs| - 1].stoichiometry else 0.0)
  }

  /** How much of species `sid` one firing of `rx` makes, net: what its products make less what its reactants use. */
  function Net(rx: Reaction, sid: string): real
  {
    StoichSum(rx.products, sid) - StoichSum(rx.reactants, sid)
  }

  /** The net stoichiometry of `sid` summed over the reactions whose column is `c`. */
  function ColumnNet(reactions: seq<Reaction>, sid: string, index: map<string, nat>, c: nat): real
  {
    if reactions == [] then 0.0
    else
      var rx := reactions[|reactions| - 1];
      ColumnNet(reactions[..|reactions| - 1], sid, index, c) + (if rx.id in index && index[rx.id] == c then Net(rx, sid) else 0.0)
  }



  /** A reference to the species as the last one writes the reaction's column. */
  lemma RefsFoldLast(row: seq<real>, refs: seq<SpeciesReference>, sid: string, rid: string,
                     index: map<string, nat>, negate: bool, add: bool)
    requires refs != [] && refs[|refs| - 1].species == sid
    requires RefsFold(row, refs, sid, rid, index, negate, add).Ok?
    ensures RefsFold(row, refs[..|refs| - 1], sid, rid, index, negate, add).Ok?
    ensures rid in index && index[rid] < |row|
    ensures var prev := RefsFold(row, refs[..|refs| - 1], sid, rid, index, negate, add).value;
            var written := Signed(negate, refs[|refs| - 1].stoichiometry);
            RefsFold(row, refs, sid, rid, index, negate, add).value
            == prev[index[rid] := if add then prev[index[rid]] + written else written]
  {
  }

  /**
   * Adding one reaction's references to a row adds their total
   * stoichiometry, signed, to the reaction's column and changes no other
   * column.
   */
  lemma {:induction false} RefsAddColumn(row: seq<real>, refs: seq<SpeciesReference>, sid: string, rid: string,
                                         index: map<string, nat>, negate: bool, c: nat)
    requires c < |row| && RefsFold(row, refs, sid, rid, index, negate, true).Ok?
    ensures RefsFold(row, refs, sid, rid, index, negate, true).value[c]
            == row[c] + (if rid in index && index[rid] == c then Signed(negate, StoichSum(refs, sid)) else 0.0)
    ensures !(rid in index && index[rid] < |row|) ==> StoichSum(refs, sid) == 0.0
  {
    if refs != [] {
      var init := refs[..|refs| - 1];
      var sr := refs[|refs| - 1];
      RefsAddColumn(row, init, sid, rid, index, negate, c);
      if sr.species == sid {
        RefsFoldLast(row, refs, sid, rid, index, negate, true);
      }
    }
  }

  /** The last reaction's reactants, then its products, are folded into the row the earlier reactions left. */
  lemma ReactionsFoldLast(row: seq<real>, reactions: seq<Reaction>, sid: string, index: map<string, nat>)
    returns (prev: seq<real>, mid: seq<real>)
    requires reactions != [] && ReactionsFold(row, reactions, sid, index, true).Ok?
    ensures var rx := reactions[|reactions| - 1];
      && ReactionsFold(row, reactions[..|reactions| - 1], sid, index, true) == Ok(prev)
      && RefsFold(prev, rx.reactants, sid, rx.id, index, true, true) == Ok(mid)
      && RefsFold(mid, rx.products, sid, rx.id, index, false, true) == ReactionsFold(row, reactions, sid, index, true)
  {
    var rx := reactions[|reactions| - 1];
    prev := ReactionsFold(row, reactions[..|reactions| - 1], sid, index, true).value;
    mid := RefsFold(prev, rx.reactants, sid, rx.id, index, true, true).value;
  }

  /** Folding every reaction into a row with `add` adds, column by column, the net stoichiometry of the species. */
  lemma {:induction false} ReactionsAddColumn(row: seq<real>, reactions: seq<Reaction>, sid: string,
                                              index: map<string, nat>, c: nat)
    requires c < |row| && ReactionsFold(row, reactions, sid, index, true).Ok?
    ensures ReactionsFold(row, reactions, sid, index, true).value[c] == row[c] + ColumnNet(reactions, sid, index, c)
  {
    if reactions != [] {
      var init := reactions[..|reactions| - 1];
      var rx := reactions[|reactions| - 1];
      var prev, mid := ReactionsFoldLast(row, reactions, sid, index);
      ReactionsAddColumn(row, init, sid, index, c);
      RefsAddColumn(prev, rx.reactants, sid, rx.id, index, true, c);
      RefsAddColumn(mid, rx.products, sid, rx.id, index, false, c);
    }
  }

  /**
   * The steady-state row of a species holds, in each reaction's column,
   * the species' net stoichiometry in that reaction (summed, should two
   * reactions share a column).
   */
  lemma NetSpeciesRowEntries(reactions: seq<Reaction>, sid: string, index: map<string, nat>, width: nat)
    requires NetSpeciesRow(reactions, sid, index, width).Ok?
    ensures forall c :: 0 <= c < width ==> NetSpeciesRow(reactions, sid, index, width).value[c] == ColumnNet(reactions, sid, index, c)
  {
    forall c | 0 <= c < width
      ensures NetSpeciesRow(reactions, sid, index, width).value[c] == ColumnNet(reactions, sid, index, c)
    {
      ReactionsAddColumn(Zeros(width), reactions, sid, index, c);
    }
  }

  /** The reaction E + S -> E + P, whose enzyme E is both consumed and produced. */
  function EnzymeReaction(): Reaction
  {
    Reaction("R1", "c", false, false,
             [SpeciesReference("E", 1.0), SpeciesReference("S", 1.0)],
             [SpeciesReference("E", 1.0), SpeciesReference("P", 1.0)],
             [], KineticLaw([], ""))
  }

  /**
   * As written, the product reference of E overwrites its reactant
   * reference: E's row says E is made at the reaction's rate, so steady
   * state forbids any flux through it, although E's net stoichiometry is 0.
   */
  lemma ProductOverwritesReactant()
    ensures SpeciesRowAsWritten([EnzymeReaction()], "E", map["R1" := 0], 1) == Ok([1.0])
    ensures NetSpeciesRow([EnzymeReaction()], "E", map["R1" := 0], 1) == Ok([0.0])
    ensures Net(EnzymeReaction(), "E") == 0.0
  {
    var rx := EnzymeReaction();
    var index := map["R1" := 0];
    assert rx.reactants[..1] == [SpeciesReference("E", 1.0)];
    assert rx.products[..1] == [SpeciesReference("E", 1.0)];
    assert [rx][..0] == [];
    assert rx.reactants[..0] == [] && rx.products[..0] == [];
    assert Zeros(1) == [0.0];
    var e := [SpeciesReference("E", 1.0)];
    assert rx.reactants[..1] == e && rx.products[..1] == e && e[..0] == [];
    assert [0.0][0 := -1.0] == [-1.0];
    assert [-1.0][0 := 1.0] == [1.0];
    assert [-1.0][0 := -1.0 + 1.0] == [0.0];
    assert RefsFold([0.0], e, "E", "R1", index, true, false) == Ok([-1.0]);
    assert RefsFold([0.0], e, "E", "R1", index, true, true) == Ok([-1.0]);
    assert RefsFold([-1.0], e, "E", "R1", index, false, false) == Ok([1.0]);
    assert RefsFold([-1.0], e, "E", "R1", index, false, true) == Ok([0.0]);
    assert RefsFold([0.0], rx.reactants, "E", "R1", index, true, false) == Ok([-1.0]);
    assert RefsFold([0.0], rx.reactants, "E", "R1", index, true, true) == Ok([-1.0]);
    assert RefsFold([-1.0], rx.products, "E", "R1", index, false, false) == Ok([1.0]);
    assert RefsFold([-1.0], rx.products, "E", "R1", index, false, true) == Ok([0.0]);
    assert [1.0][..0] == [];
    assert StoichSum(rx.products, "E") == 1.0;
    assert StoichSum(rx.reactants, "E") == 1.0;
  }

  /** The steady-state rows: one per species that is not a boundary species, in species order. */
  function SpeciesRows(species: seq<Species>, reactions: seq<Reaction>, index: map<string, nat>, width: nat)
    : (r: Result<seq<seq<real>>, string>)
    ensures r.Ok? ==> forall i :: 0 <= i < |r.value| ==> |r.value[i]| == width
    ensures r.Err? ==> r.error == NULL_POINTER || r.error == INDEX_OUT_OF_BOUNDS
  {
    if species == [] then Ok([])
    else
      var prev := SpeciesRows(species[..|species| - 1], reactions, index, width);
      var sp := species[|species| - 1];
      if prev.Err? || sp.boundaryCondition then prev
      else
        var row := NetSpeciesRow(reactions, sp.id, index, width);
        if row.Err? then Err(row.error) else Ok(prev.value + [row.value])
  }

  function NonBoundaryCount(species: seq<Species>): nat
  {
    if species == [] then 0
    else NonBoundaryCount(species[..|species| - 1]) + (if species[|species| - 1].boundaryCondition then 0 else 1)
  }

  /** The fixed-flux rows: one per `==` bound, 1 at its reaction's column; the column must lie within the reaction count. */
  function BoundRows(bounds: seq<FluxBound>, index: map<string, nat>, width: nat): (r: Result<seq<seq<real>>, string>)
    requires Indexes(bounds, index)
    ensures r.Ok? ==> forall i :: 0 <= i < |r.value| ==> |r.value[i]| == width
    ensures r.Err? ==> r.error == NULL_POINTER || r.error == INDEX_OUT_OF_BOUNDS
  {
    if bounds == [] then Ok([])
    else
      var init := bounds[..|bounds| - 1];
      assert Indexes(init, index);
      var prev := BoundRows(init, index, width);
      var b := bounds[|bounds| - 1];
      if prev.Err? || b.operation != Equal then prev
      else if index[b.reaction] >= width then Err(INDEX_OUT_OF_BOUNDS)
      else Ok(prev.value + [Row(width, index[b.reaction], 1.0)])
  }

  /** The right-hand sides of the fixed-flux rows: the bound values. */
  function BoundValues(bounds: seq<FluxBound>): (r: seq<real>)
    ensures |r| == NumEquals(bounds)
  {
    if bounds == [] then []
    else
      var b := bounds[|bounds| - 1];
      BoundValues(bounds[..|bounds| - 1]) + (if b.operation == Equal then [b.value] else [])
  }

  /** The equality system `stoch . x == zero`: the steady-state rows with right-hand side 0, then the fixed-flux rows. */
  function Equalities(species: seq<Species>, reactions: seq<Reaction>, bounds: seq<FluxBound>, index: map<string, nat>)
    : Result<(seq<seq<real>>, seq<real>), string>
    requires Indexes(bounds, index)
  {
    var s := SpeciesRows(species, reactions, index, |reactions|);
    if s.Err? then Err(s.error)
    else
      var b := BoundRows(bounds, index, |reactions|);
      if b.Err? then Err(b.error)
      else Ok((s.value + b.value, Zeros(|s.value|) + BoundValues(bounds)))
  }

  /** There is one steady-state row per species that is not a boundary species. */
  lemma {:induction false} SpeciesRowCount(species: seq<Species>, reactions: seq<Reaction>, index: map<string, nat>, width: nat)
    ensures SpeciesRows(species, reactions, index, width).Ok? ==>
              |SpeciesRows(species, reactions, index, width).value| == NonBoundaryCount(species)
  {
    if species != [] {
      SpeciesRowCount(species[..|species| - 1], reactions, index, width);
    }
  }

  /** There is one fixed-flux row per `==` bound. */
  lemma {:induction false} BoundRowCount(bounds: seq<FluxBound>, index: map<string, nat>, width: nat)
    requires Indexes(bounds, index)
    ensures BoundRows(bounds, index, width).Ok? ==> |BoundRows(bounds, index, width).value| == NumEquals(bounds)
  {
    if bounds != [] {
      var init := bounds[..|bounds| - 1];
      assert Indexes(init, index);
      BoundRowCount(init, index, width);
    }
  }

  /**
   * A flux vector meets the fixed-flux row of an `==` bound, with the
   * bound's value on the right, exactly when the reaction's flux equals it.
   */
  lemma FixedFluxMeaning(b: FluxBound, index: map<string, nat>, width: nat, x: seq<real>)
    requires b.reaction in index && index[b.reaction] < width && |x| == width
    ensures Dot(Row(width, index[b.reaction], 1.0), x) == b.value <==> x[index[b.reaction]] == b.value
  {
    DotRow(width, index[b.reaction], 1.0, x);
  }

  // ---------------------------------------------------------------------
  // The equality loops, on the matrix `stoch`

  /** Row `i` of a matrix. */
  function RowOf(a: array2<real>, i: nat): (r: seq<real>)
    reads a
    requires i < a.Length0
    ensures |r| == a.Length1 && forall j :: 0 <= j < a.Length1 ==> r[j] == a[i, j]
  {
    seq(a.Length1, j requires 0 <= j < a.Length1 reads a => a[i, j])
  }

  /** The rows of a matrix, top to bottom. */
  function Rows(a: array2<real>): (r: seq<seq<real>>)
    reads a
    ensures |r| == a.Length0 && forall i :: 0 <= i < a.Length0 ==> r[i] == RowOf(a, i)
  {
    seq(a.Length0, i requires 0 <= i < a.Length0 reads a => RowOf(a, i))
  }

  /** Once a prefix of the references fails, the whole fold fails the same way. */
  lemma {:induction false} RefsErrorPersists(row: seq<real>, refs: seq<SpeciesReference>, sid: string, rid: string,
                                             index: map<string, nat>, negate: bool, add: bool, k: nat)
    requires k <= |refs| && RefsFold(row, refs[..k], sid, rid, index, negate, add).Err?
    ensures RefsFold(row, refs, sid, rid, index, negate, add) == RefsFold(row, refs[..k], sid, rid, index, negate, add)
    decreases |refs|
  {
    if k < |refs| {
      var init := refs[..|refs| - 1];
      assert init[..k] == refs[..k];
      RefsErrorPersists(row, init, sid, rid, index, negate, add, k);
    } else {
      assert refs[..k] == refs;
    }
  }

  /** Once a prefix of the reactions fails, the whole fold fails the same way. */
  lemma {:induction false} ReactionsErrorPersists(row: seq<real>, reactions: seq<Reaction>, sid: string,
                                                  index: map<string, nat>, add: bool, k: nat)
    requires k <= |reactions| && ReactionsFold(row, reactions[..k], sid, index, add).Err?
    ensures ReactionsFold(row, reactions, sid, index, add) == ReactionsFold(row, reactions[..k], sid, index, add)
    decreases |reactions|
  {
    if k < |reactions| {
      var init := reactions[..|reactions| - 1];
      assert init[..k] == reactions[..k];
      ReactionsErrorPersists(row, init, sid, index, add, k);
    } else {
      assert reactions[..k] == reactions;
    }
  }

  /** One more reference: the fold over it continues from the fold over the references before it. */
  lemma RefsFoldNext(row: seq<real>, refs: seq<SpeciesReference>, sid: string, rid: string,
                     index: map<string, nat>, negate: bool, add: bool, l: nat)
    requires l < |refs|
    ensures var prev := RefsFold(row, refs[..l], sid, rid, index, negate, add);
      RefsFold(row, refs[..l + 1], sid, rid, index, negate, add)
      == if prev.Err? || refs[l].species != sid then prev
         else if rid !in index then Err(NULL_POINTER)
         else if index[rid] >= |prev.value| then Err(INDEX_OUT_OF_BOUNDS)
         else
           var written := Signed(negate, refs[l].stoichiometry);
           Ok(prev.value[index[rid] := if add then prev.value[index[rid]] + written else written])
  {
    assert refs[..l + 1][..l] == refs[..l];
  }

  /** Adds `v` to entry `c` of row `m`; nothing else changes. */
  method AddToEntry(stoch: array2<real>, m: nat, c: nat, v: real)
    requires m < stoch.Length0 && c < stoch.Length1
    modifies stoch
    ensures RowOf(stoch, m) == old(RowOf(stoch, m))[c := old(stoch[m, c]) + v]
    ensures forall i, j :: 0 <= i < stoch.Length0 && i != m && 0 <= j < stoch.Length1 ==> stoch[i, j] == old(stoch[i, j])
  {
    ghost var before := RowOf(stoch, m);
    stoch[m, c] := stoch[m, c] + v;
    assert RowOf(stoch, m) == before[c := before[c] + v];
  }

  /** The innermost loops: one reaction's reactants or products added into row `m` of `stoch`. */
  method AddRefs(stoch: array2<real>, m: nat, refs: seq<SpeciesReference>, sid: string, rid: string,
                 index: map<string, nat>, negate: bool) returns (error: Option<string>)
    requires m < stoch.Length0
    modifies stoch
    ensures var f := RefsFold(old(RowOf(stoch, m)), refs, sid, rid, index, negate, true);
      && (error.None? <==> f.Ok?)
      && (f.Ok? ==> RowOf(stoch, m) == f.value)
      && (f.Err? ==> error == Some(f.error))
    ensures forall i, j :: 0 <= i < stoch.Length0 && i != m && 0 <= j < stoch.Length1 ==> stoch[i, j] == old(stoch[i, j])
  {
    ghost var row0 := RowOf(stoch, m);
    ghost var row := row0;
    var l := 0;
    while l < |refs|
      invariant 0 <= l <= |refs|
      invariant RefsFold(row0, refs[..l], sid, rid, index, negate, true) == Ok(row)
      invariant RowOf(stoch, m) == row
      invariant forall i, j :: 0 <= i < stoch.Length0 && i != m && 0 <= j < stoch.Length1 ==> stoch[i, j] == old(stoch[i, j])
    {
      RefsFoldNext(row0, refs, sid, rid, index, negate, true, l);
      var sr := refs[l];
      if sr.species == sid {
        if rid !in index {
          RefsErrorPersists(row0, refs, sid, rid, index, negate, true, l + 1);
          return Some(NULL_POINTER);
        }
        if index[rid] >= stoch.Length1 {
          RefsErrorPersists(row0, refs, sid, rid, index, negate, true, l + 1);
          return Some(INDEX_OUT_OF_BOUNDS);
        }
        AddToEntry(stoch, m, index[rid], Signed(negate, sr.stoichiometry));
        row := row[index[rid] := row[index[rid]] + Signed(negate, sr.stoichiometry)];
      }
      l := l + 1;
    }
    assert refs[..l] == refs;
    return None;
  }

  /**
   * The loop over the reactions for one species: each reaction's
   * reactants, then its products, added into row `m` of `stoch`.
   */
  method FillSpeciesRow(stoch: array2<real>, m: nat, sid: string, reactions: seq<Reaction>, index: map<string, nat>)
    returns (error: Option<string>)
    requires m < stoch.Length0
    modifies stoch
    ensures var f := ReactionsFold(old(RowOf(stoch, m)), reactions, sid, index, true);
      && (error.None? <==> f.Ok?)
      && (f.Ok? ==> RowOf(stoch, m) == f.value)
      && (f.Err? ==> error == Some(f.error))
    ensures forall i, j :: 0 <= i < stoch.Length0 && i != m && 0 <= j < stoch.Length1 ==> stoch[i, j] == old(stoch[i, j])
  {
    ghost var row0 := RowOf(stoch, m);
    var k := 0;
    while k < |reactions|
      invariant 0 <= k <= |reactions|
      invariant ReactionsFold(row0, reactions[..k], sid, index, true).Ok?
      invariant RowOf(stoch, m) == ReactionsFold(row0, reactions[..k], sid, index, true).value
      invariant forall i, j :: 0 <= i < stoch.Length0 && i != m && 0 <= j < stoch.Length1 ==> stoch[i, j] == old(stoch[i, j])
    {
      assert reactions[..k + 1][..k] == reactions[..k];
      var rx := reactions[k];
      ghost var prev := RowOf(stoch, m);
      error := AddRefs(stoch, m, rx.reactants, sid, rx.id, index, true);
      if error.Some? {
        assert ReactionsFold(row0, reactions[..k + 1], sid, index, true) == RefsFold(prev, rx.reactants, sid, rx.id, index, true, true);
        ReactionsErrorPersists(row0, reactions, sid, index, true, k + 1);
        return;
      }
      ghost var mid := RowOf(stoch, m);
      error := AddRefs(stoch, m, rx.products, sid, rx.id, index, false);
      assert ReactionsFold(row0, reactions[..k + 1], sid, index, true) == RefsFold(mid, rx.products, sid, rx.id, index, false, true);
      if error.Some? {
        ReactionsErrorPersists(row0, reactions, sid, index, true, k + 1);
        return;
      }
      k := k + 1;
    }
    assert reactions[..k] == reactions;
    error := None;
  }

  /** The loop counting the `==` bounds. */
  method CountEquals(bounds: seq<FluxBound>) returns (numEquals: nat)
    ensures numEquals == NumEquals(bounds)
  {
    numEquals := 0;
    var j := 0;
    while j < |bounds|
      invariant 0 <= j <= |bounds|
      invariant numEquals == NumEquals(bounds[..j])
    {
      assert bounds[..j + 1][..j] == bounds[..j];
      if bounds[j].operation == Equal {
        numEquals := numEquals + 1;
      }
      j := j + 1;
    }
    assert bounds[..j] == bounds;
  }

  /** The loop counting the species that are not boundary species. */
  method CountNonBoundary(species: seq<Species>) returns (count: nat)
    ensures count == NonBoundaryCount(species)
  {
    count := 0;
    var j := 0;
    while j < |species|
      invariant 0 <= j <= |species|
      invariant count == NonBoundaryCount(species[..j])
    {
      assert species[..j + 1][..j] == species[..j];
      if !species[j].boundaryCondition {
        count := count + 1;
      }
      j := j + 1;
    }
    assert species[..j] == species;
  }

  lemma {:induction false} NumEqualsPrefix(bounds: seq<FluxBound>, k: nat)
    requires k <= |bounds|
    ensures NumEquals(bounds[..k]) <= NumEquals(bounds)
    decreases |bounds|
  {
    if k < |bounds| {
      var init := bounds[..|bounds| - 1];
      assert init[..k] == bounds[..k];
      NumEqualsPrefix(init, k);
    } else {
      assert bounds[..k] == bounds;
    }
  }

  lemma {:induction false} NonBoundaryPrefix(species: seq<Species>, k: nat)
    requires k <= |species|
    ensures NonBoundaryCount(species[..k]) <= NonBoundaryCount(species)
    decreases |species|
  {
    if k < |species| {
      var init := species[..|species| - 1];
      assert init[..k] == species[..k];
      NonBoundaryPrefix(init, k);
    } else {
      assert species[..k] == species;
    }
  }

  /** Once the rows of a prefix of the species fail, all of them fail the same way. */
  lemma {:induction false} SpeciesRowsErrorPersists(species: seq<Species>, reactions: seq<Reaction>,
                                                    index: map<string, nat>, width: nat, k: nat)
    requires k <= |species| && SpeciesRows(species[..k], reactions, index, width).Err?
    ensures SpeciesRows(species, reactions, index, width) == SpeciesRows(species[..k], reactions, index, width)
    decreases |species|
  {
    if k < |species| {
      var init := species[..|species| - 1];
      assert init[..k] == species[..k];
      SpeciesRowsErrorPersists(init, reactions, index, width, k);
    } else {
      assert species[..k] == species;
    }
  }

  /** Once the rows of a prefix of the bounds fail, all of them fail the same way. */
  lemma {:induction false} BoundRowsErrorPersists(bounds: seq<FluxBound>, index: map<string, nat>, width: nat, k: nat)
    requires Indexes(bounds, index) && k <= |bounds|
    requires assert Indexes(bounds[..k], index); BoundRows(bounds[..k], index, width).Err?
    ensures assert Indexes(bounds[..k], index); BoundRows(bounds, index, width) == BoundRows(bounds[..k], index, width)
    decreases |bounds|
  {
    assert Indexes(bounds[..k], index);
    if k < |bounds| {
      var init := bounds[..|bounds| - 1];
      assert init[..k] == bounds[..k];
      assert Indexes(init, index);
      BoundRowsErrorPersists(init, index, width, k);
    } else {
      assert bounds[..k] == bounds;
    }
  }

  /** One more species: its row and its count, if it is not a boundary species. */
  lemma SpeciesRowsNext(species: seq<Species>, reactions: seq<Reaction>, index: map<string, nat>, width: nat, j: nat)
    requires j < |species|
    ensures var prev := SpeciesRows(species[..j], reactions, index, width);
      SpeciesRows(species[..j + 1], reactions, index, width)
      == if prev.Err? || species[j].boundaryCondition then prev
         else var row := NetSpeciesRow(reactions, species[j].id, index, width);
           if row.Err? then Err(row.error) else Ok(prev.value + [row.value])
    ensures NonBoundaryCount(species[..j + 1]) == NonBoundaryCount(species[..j]) + (if species[j].boundaryCondition then 0 else 1)
  {
    assert species[..j + 1][..j] == species[..j];
  }

  /** The species rows written so far: `rows` at the top of `stoch`, zeros below. */
  ghost predicate SteadyRows(stoch: array2<real>, rows: seq<seq<real>>)
    reads stoch
  {
    && |rows| <= stoch.Length0
    && (forall i :: 0 <= i < |rows| ==> |rows[i]| == stoch.Length1)
    && (forall i, c :: 0 <= i < |rows| && 0 <= c < stoch.Length1 ==> stoch[i, c] == rows[i][c])
    && (forall i, c :: |rows| <= i < stoch.Length0 && 0 <= c < stoch.Length1 ==> stoch[i, c] == 0.0)
  }

  /** One species that is not a boundary species: its net row written below the rows so far. */
  method AddSpeciesRow(stoch: array2<real>, ghost rows: seq<seq<real>>, m: nat, sid: string, reactions: seq<Reaction>,
                       index: map<string, nat>) returns (error: Option<string>)
    requires SteadyRows(stoch, rows) && m == |rows| < stoch.Length0 && stoch.Length1 == |reactions|
    modifies stoch
    ensures var row := NetSpeciesRow(reactions, sid, index, |reactions|);
      && (error.None? <==> row.Ok?)
      && (row.Err? ==> error == Some(row.error))
      && (row.Ok? ==> SteadyRows(stoch, rows + [row.value]))
  {
    assert RowOf(stoch, m) == Zeros(|reactions|);
    error := FillSpeciesRow(stoch, m, sid, reactions, index);
  }

  /**
   * The loop over the species: row by row from the top, the net
   * stoichiometry of each species that is not a boundary species.
   */
  method FillSteadyState(stoch: array2<real>, species: seq<Species>, reactions: seq<Reaction>, index: map<string, nat>)
    returns (error: Option<string>)
    requires stoch.Length0 >= NonBoundaryCount(species) && stoch.Length1 == |reactions|
    requires forall i, c :: 0 <= i < stoch.Length0 && 0 <= c < stoch.Length1 ==> stoch[i, c] == 0.0
    modifies stoch
    ensures var rows := SpeciesRows(species, reactions, index, |reactions|);
      && (error.None? <==> rows.Ok?)
      && (rows.Err? ==> error == Some(rows.error))
      && (rows.Ok? ==> |rows.value| == NonBoundaryCount(species))
      && (rows.Ok? ==> forall i, c :: 0 <= i < |rows.value| && 0 <= c < stoch.Length1 ==> stoch[i, c] == rows.value[i][c])
      && (rows.Ok? ==> forall i, c :: |rows.value| <= i < stoch.Length0 && 0 <= c < stoch.Length1 ==> stoch[i, c] == 0.0)
  {
    var width := |reactions|;
    var m := 0;
    var j := 0;
    ghost var rows: seq<seq<real>> := [];
    while j < |species|
      invariant 0 <= j <= |species|
      invariant SpeciesRows(species[..j], reactions, index, width) == Ok(rows)
      invariant m == |rows| == NonBoundaryCount(species[..j])
      invariant SteadyRows(stoch, rows)
    {
      SpeciesRowsNext(species, reactions, index, width, j);
      var sp := species[j];
      if !sp.boundaryCondition {
        NonBoundaryPrefix(species, j + 1);
        error := AddSpeciesRow(stoch, rows, m, sp.id, reactions, index);
        if error.Some? {
          SpeciesRowsErrorPersists(species, reactions, index, width, j + 1);
          return;
        }
        rows := rows + [NetSpeciesRow(reactions, sp.id, index, width).value];
        m := m + 1;
      }
      j := j + 1;
    }
    assert species[..j] == species;
    error := None;
  }

  /** One more bound: what it adds to the fixed-flux rows, their count and their values. */
  lemma FixedFluxStep(bounds: seq<FluxBound>, index: map<string, nat>, width: nat, j: nat)
    requires Indexes(bounds, index) && j < |bounds|
    ensures Indexes(bounds[..j], index) && Indexes(bounds[..j + 1], index)
    ensures var b := bounds[j];
      && NumEquals(bounds[..j + 1]) == NumEquals(bounds[..j]) + (if b.operation == Equal then 1 else 0)
      && BoundValues(bounds[..j + 1]) == BoundValues(bounds[..j]) + (if b.operation == Equal then [b.value] else [])
      && (BoundRows(bounds[..j], index, width).Ok? ==>
            BoundRows(bounds[..j + 1], index, width)
            == if b.operation != Equal then BoundRows(bounds[..j], index, width)
               else if index[b.reaction] >= width then Err(INDEX_OUT_OF_BOUNDS)
               else Ok(BoundRows(bounds[..j], index, width).value + [Row(width, index[b.reaction], 1.0)]))
  {
    assert bounds[..j + 1][..j] == bounds[..j];
    assert Indexes(bounds[..j], index);
    assert Indexes(bounds[..j + 1], index);
  }

  /**
   * The fixed-flux rows written so far: `rows` below the first `nonBoundary`
   * rows of `stoch`, zeros under them, and `vals` beside them in `zero`.
   */
  ghost predicate FixedFluxRows(stoch: array2<real>, zero: array<real>, nonBoundary: nat, rows: seq<seq<real>>, vals: seq<real>)
    reads stoch, zero
  {
    && nonBoundary + |rows| <= stoch.Length0 == zero.Length && |vals| == |rows|
    && (forall i :: 0 <= i < |rows| ==> |rows[i]| == stoch.Length1)
    && (forall i, c :: 0 <= i < |rows| && 0 <= c < stoch.Length1 ==> stoch[nonBoundary + i, c] == rows[i][c])
    && (forall i, c :: nonBoundary + |rows| <= i < stoch.Length0 && 0 <= c < stoch.Length1 ==> stoch[i, c] == 0.0)
    && (forall i :: 0 <= i < |vals| ==> zero[nonBoundary + i] == vals[i])
  }

  /** One fixed-flux row: 1 at column `k` of the next (zero) row, and `value` on the right. */
  method WriteFixedFlux(stoch: array2<real>, zero: array<real>, nonBoundary: nat, ghost rows: seq<seq<real>>,
                        ghost vals: seq<real>, m: nat, k: nat, value: real)
    requires FixedFluxRows(stoch, zero, nonBoundary, rows, vals)
    requires m == nonBoundary + |rows| < stoch.Length0 && k < stoch.Length1
    modifies stoch, zero
    ensures FixedFluxRows(stoch, zero, nonBoundary, rows + [Row(stoch.Length1, k, 1.0)], vals + [value])
    ensures forall i, c :: 0 <= i < nonBoundary && 0 <= c < stoch.Length1 ==> stoch[i, c] == old(stoch[i, c])
    ensures forall i :: 0 <= i < nonBoundary ==> zero[i] == old(zero[i])
  {
    stoch[m, k] := 1.0;
    zero[m] := value;
  }

  /** One pass of the loop over the bounds: bound `j`'s row and value, if it is `==`, below the rows so far. */
  method FixedFluxPass(stoch: array2<real>, zero: array<real>, nonBoundary: nat, bounds: seq<FluxBound>,
                       index: map<string, nat>, j: nat, ghost rows: seq<seq<real>>, ghost vals: seq<real>, m: nat)
    returns (m': nat, error: Option<string>, ghost rows': seq<seq<real>>, ghost vals': seq<real>)
    requires Indexes(bounds, index) && j < |bounds|
    requires stoch.Length0 == zero.Length == nonBoundary + NumEquals(bounds)
    requires Indexes(bounds[..j], index)
    requires BoundRows(bounds[..j], index, stoch.Length1) == Ok(rows) && vals == BoundValues(bounds[..j])
    requires |rows| == NumEquals(bounds[..j]) && m == nonBoundary + |rows|
    requires FixedFluxRows(stoch, zero, nonBoundary, rows, vals)
    modifies stoch, zero
    ensures Indexes(bounds[..j + 1], index)
    ensures error.Some? ==> BoundRows(bounds[..j + 1], index, stoch.Length1) == Err(error.value)
    ensures error.None? ==>
      && BoundRows(bounds[..j + 1], index, stoch.Length1) == Ok(rows') && vals' == BoundValues(bounds[..j + 1])
      && |rows'| == NumEquals(bounds[..j + 1]) && m' == nonBoundary + |rows'|
      && FixedFluxRows(stoch, zero, nonBoundary, rows', vals')
    ensures forall i, c :: 0 <= i < nonBoundary && 0 <= c < stoch.Length1 ==> stoch[i, c] == old(stoch[i, c])
    ensures forall i :: 0 <= i < nonBoundary ==> zero[i] == old(zero[i])
  {
    var width := stoch.Length1;
    FixedFluxStep(bounds, index, width, j);
    NumEqualsPrefix(bounds, j + 1);
    BoundRowCount(bounds[..j + 1], index, width);
    m', error, rows', vals' := m, None, rows, vals;
    var b := bounds[j];
    if b.operation == Equal {
      if index[b.reaction] >= width {
        return m, Some(INDEX_OUT_OF_BOUNDS), rows, vals;
      }
      WriteFixedFlux(stoch, zero, nonBoundary, rows, vals, m, index[b.reaction], b.value);
      rows' := rows + [Row(width, index[b.reaction], 1.0)];
      vals' := vals + [b.value];
      m' := m + 1;
    }
  }

  /**
   * The loop over the bounds: below the first `nonBoundary` rows, one row
   * per `==` bound with 1 at its reaction's column, and its value on the
   * right.
   */
  method FillFixedFluxes(stoch: array2<real>, zero: array<real>, nonBoundary: nat, bounds: seq<FluxBound>,
                         index: map<string, nat>) returns (error: Option<string>)
    requires Indexes(bounds, index)
    requires stoch.Length0 == zero.Length == nonBoundary + NumEquals(bounds)
    requires forall i, c :: nonBoundary <= i < stoch.Length0 && 0 <= c < stoch.Length1 ==> stoch[i, c] == 0.0
    modifies stoch, zero
    ensures var rows := BoundRows(bounds, index, stoch.Length1);
      && (error.None? <==> rows.Ok?)
      && (rows.Err? ==> error == Some(rows.error))
      && (rows.Ok? ==> |rows.value| == NumEquals(bounds))
      && (rows.Ok? ==> forall i, c :: 0 <= i < |rows.value| && 0 <= c < stoch.Length1 ==> stoch[nonBoundary + i, c] == rows.value[i][c])
      && (rows.Ok? ==> forall i :: 0 <= i < NumEquals(bounds) ==> zero[nonBoundary + i] == BoundValues(bounds)[i])
    ensures forall i, c :: 0 <= i < nonBoundary && 0 <= c < stoch.Length1 ==> stoch[i, c] == old(stoch[i, c])
    ensures forall i :: 0 <= i < nonBoundary ==> zero[i] == old(zero[i])
  {
    var width := stoch.Length1;
    var m := nonBoundary;
    var j := 0;
    ghost var rows: seq<seq<real>> := [];
    ghost var vals: seq<real> := [];
    while j < |bounds|
      invariant 0 <= j <= |bounds|
      invariant Indexes(bounds[..j], index)
      invariant BoundRows(bounds[..j], index, width) == Ok(rows) && vals == BoundValues(bounds[..j])
      invariant |rows| == NumEquals(bounds[..j]) && m == nonBoundary + |rows|
      invariant FixedFluxRows(stoch, zero, nonBoundary, rows, vals)
      invariant forall i, c :: 0 <= i < nonBoundary && 0 <= c < width ==> stoch[i, c] == old(stoch[i, c])
      invariant forall i :: 0 <= i < nonBoundary ==> zero[i] == old(zero[i])
    {
      m, error, rows, vals := FixedFluxPass(stoch, zero, nonBoundary, bounds, index, j, rows, vals, m);
      if error.Some? {
        BoundRowsErrorPersists(bounds, index, width, j + 1);
        return;
      }
      j := j + 1;
    }
    assert bounds[..j] == bounds;
    error := None;
  }

  /** Sequences of the same length with the same entries are equal. */
  lemma SameEntries<T>(s: seq<T>, t: seq<T>)
    requires |s| == |t| && forall i :: 0 <= i < |s| ==> s[i] == t[i]
    ensures s == t
  {
  }

  /**
   * The equalities of PerformFluxBalanceAnalysis: the matrix `stoch`, one
   * row per species that is not a boundary species and one per `==` bound,
   * and the right-hand side `zero`.
   */
  method EqualityMatrix(species: seq<Species>, reactions: seq<Reaction>, bounds: seq<FluxBound>, index: map<string, nat>)
    returns (r: Result<(array2<real>, array<real>), string>)
    requires Indexes(bounds, index)
    ensures var e := Equalities(species, reactions, bounds, index);
      && (r.Ok? <==> e.Ok?)
      && (r.Err? ==> r.error == e.error)
      && (r.Ok? ==> fresh(r.value.0) && fresh(r.value.1) && Rows(r.value.0) == e.value.0 && r.value.1[..] == e.value.1)
  {
    var numEquals := CountEquals(bounds);
    var nonBoundary := CountNonBoundary(species);
    var stoch := new real[nonBoundary + numEquals, |reactions|]((i, j) => 0.0);
    var zero := new real[nonBoundary + numEquals](_ => 0.0);
    var error := FillSteadyState(stoch, species, reactions, index);
    if error.Some? {
      return Err(error.value);
    }
    ghost var speciesRows := SpeciesRows(species, reactions, index, |reactions|).value;
    error := FillFixedFluxes(stoch, zero, nonBoundary, bounds, index);
    if error.Some? {
      return Err(error.value);
    }
    ghost var boundRows := BoundRows(bounds, index, |reactions|).value;
    ghost var e := Equalities(species, reactions, bounds, index).value;
    assert e.0 == speciesRows + boundRows;
    forall i | 0 <= i < stoch.Length0
      ensures Rows(stoch)[i] == e.0[i]
    {
      if i < nonBoundary {
        assert RowOf(stoch, i) == speciesRows[i];
      } else {
        assert RowOf(stoch, i) == boundRows[i - nonBoundary];
      }
    }
    SameEntries(Rows(stoch), e.0);
    SameEntries(zero[..], e.1);
    return Ok((stoch, zero));
  }

  // ---------------------------------------------------------------------
  // The analysis

  /** The first objective whose id is the active objective's. */
  function ActiveObjective(objectives: seq<Objective>, active: string): (r: Option<Objective>)
  {
    if objectives == [] then None
    else if objectives[0].id == active then Some(objectives[0])
    else ActiveObjective(objectives[1..], active)
  }

  /** The active objective is the first objective with the active id, and there is none when no objective has it. */
  lemma {:induction false} ActiveObjectiveSpec(objectives: seq<Objective>, active: string)
    ensures ActiveObjective(objectives, active).None? <==> forall i :: 0 <= i < |objectives| ==> objectives[i].id != active
    ensures ActiveObjective(objectives, active).Some? ==>
              exists i :: 0 <= i < |objectives| && objectives[i] == ActiveObjective(objectives, active).value
                          && objectives[i].id == active
                          && forall k :: 0 <= k < i ==> objectives[k].id != active
  {
    if objectives != [] && objectives[0].id != active {
      var tail := objectives[1..];
      ActiveObjectiveSpec(tail, active);
      assert forall i :: 0 <= i < |tail| ==> tail[i] == objectives[i + 1];
      if ActiveObjective(tail, active).Some? {
        var i :| 0 <= i < |tail| && tail[i] == ActiveObjective(tail, active).value && tail[i].id == active
                 && forall k :: 0 <= k < i ==> tail[k].id != active;
        assert objectives[i + 1] == tail[i];
        assert forall k :: 0 <= k < i + 1 ==> objectives[k].id != active by {
          forall k | 0 <= k < i + 1
            ensures objectives[k].id != active
          {
            if k > 0 {
              assert objectives[k] == tail[k - 1];
            }
          }
        }
      } else {
        forall i | 0 <= i < |objectives|
          ensures objectives[i].id != active
        {
          if i > 0 {
            assert objectives[i] == tail[i - 1];
          }
        }
      }
    }
  }

  /**
   * The optimisation request for objective `o`: minimise the objective
   * array, subject to the inequality array and to `stoch . x == zero`.
   */
  function Assemble(o: Objective, plugin: FbcPlugin, species: seq<Species>, reactions: seq<Reaction>)
    : Result<Problem, string>
  {
    IndexCoversBounds(plugin.fluxBounds);
    var index := Positions(FirstSeen(plugin.fluxBounds));
    var objective := ObjectiveVector(o.fluxObjectives, o.objectiveType, index, |reactions|);
    if objective.Err? then Err(objective.error)
    else
      var equalities := Equalities(species, reactions, plugin.fluxBounds, index);
      if equalities.Err? then Err(equalities.error)
      else Ok(Problem(objective.value, InequalitySlots(plugin.fluxBounds, index), equalities.value.0, equalities.value.1))
  }

  /**
   * What PerformFluxBalanceAnalysis returns: -1 without the fbc plugin or
   * without an active objective; otherwise the solver's code for the
   * active objective's problem. An exception while the problem is built
   * escapes as the error.
   */
  function FbaOutcome(fbc: Option<FbcPlugin>, species: seq<Species>, reactions: seq<Reaction>,
                      solve: Problem -> SolverOutcome): Result<int, string>
  {
    if fbc.None? then Ok(-1)
    else
      match ActiveObjective(fbc.value.objectives, fbc.value.activeObjective)
      case None => Ok(-1)
      case Some(o) =>
        var problem := Assemble(o, fbc.value, species, reactions);
        if problem.Err? then Err(problem.error) else OutcomeCode(solve(problem.value))
  }

  /** PerformFluxBalanceAnalysis. */
  method PerformFluxBalanceAnalysis(fbc: Option<FbcPlugin>, species: seq<Species>, reactions: seq<Reaction>,
                                    solve: Problem -> SolverOutcome) returns (r: Result<int, string>)
    ensures r == FbaOutcome(fbc, species, reactions, solve)
  {
    if fbc.Some? {
      var plugin := fbc.value;
      var reactionIndex := ReactionIndex(plugin.fluxBounds);
      IndexCoversBounds(plugin.fluxBounds);
      var i := 0;
      while i < |plugin.objectives|
        invariant 0 <= i <= |plugin.objectives|
        invariant ActiveObjective(plugin.objectives[i..], plugin.activeObjective)
                  == ActiveObjective(plugin.objectives, plugin.activeObjective)
      {
        var o := plugin.objectives[i];
        if plugin.activeObjective != o.id {
          assert plugin.objectives[i..][1..] == plugin.objectives[i + 1..];
          i := i + 1;
          continue;
        }
        var objective := ObjectiveArray(o.fluxObjectives, o.objectiveType, reactionIndex, |reactions|);
        if objective.Err? {
          return Err(objective.error);
        }
        var numEquals := CountEquals(plugin.fluxBounds);
        var inequalities := InequalityArray(plugin.fluxBounds, reactionIndex, numEquals);
        var equalities := EqualityMatrix(species, reactions, plugin.fluxBounds, reactionIndex);
        if equalities.Err? {
          return Err(equalities.error);
        }
        var problem := Problem(objective.value[..], inequalities[..], Rows(equalities.value.0), equalities.value.1[..]);
        return OutcomeCode(solve(problem));
      }
    }
    return Ok(-1);
  }

  /**
   * The analysis returns -1 without the fbc plugin or an active objective;
   * otherwise, once the problem is built, the solver's own code, or -2 to
   * -5 for a solver exception by its message. It fails only by a null
   * lookup or an index out of bounds.
   */
  lemma FbaOutcomeSpec(fbc: Option<FbcPlugin>, species: seq<Species>, reactions: seq<Reaction>,
                       solve: Problem -> SolverOutcome)
    ensures fbc.None? ==> FbaOutcome(fbc, species, reactions, solve) == Ok(-1)
    ensures fbc.Some? && (forall i :: 0 <= i < |fbc.value.objectives| ==> fbc.value.objectives[i].id != fbc.value.activeObjective)
            ==> FbaOutcome(fbc, species, reactions, solve) == Ok(-1)
    ensures fbc.Some? && ActiveObjective(fbc.value.objectives, fbc.value.activeObjective).Some? ==>
              var p := Assemble(ActiveObjective(fbc.value.objectives, fbc.value.activeObjective).value, fbc.value, species, reactions);
              p.Ok? ==>
                match solve(p.value)
                case Solved(code) => FbaOutcome(fbc, species, reactions, solve) == Ok(code)
                case Failed(None) => FbaOutcome(fbc, species, reactions, solve) == Err(NULL_POINTER)
                case Failed(Some(m)) =>
                  && FbaOutcome(fbc, species, reactions, solve) == Ok(ErrorCode(m))
                  && -5 <= ErrorCode(m) <= -2
    ensures FbaOutcome(fbc, species, reactions, solve).Err? ==>
              FbaOutcome(fbc, species, reactions, solve).error in {NULL_POINTER, INDEX_OUT_OF_BOUNDS}
  {
    if fbc.Some? {
      ActiveObjectiveSpec(fbc.value.objectives, fbc.value.activeObjective);
      var a := ActiveObjective(fbc.value.objectives, fbc.value.activeObjective);
      if a.Some? {
        var p := Assemble(a.value, fbc.value, species, reactions);
        if p.Ok? {
          match solve(p.value)
          case Failed(Some(m)) => ErrorCodeSpec(m);
          case _ =>
        }
      }
    }
  }

  /** A flux vector satisfies an inequality `c . x + constant <= 0`. */
  predicate Satisfies(q: Inequality, x: seq<real>)
  {
    |q.coefficients| == |x| && Dot(q.coefficients, x) + q.constant <= 0.0
  }

  /** The flux vector keeps bound `b` if it is a `>=` or `<=` bound. */
  predicate KeepsInequalityBound(b: FluxBound, index: map<string, nat>, x: seq<real>)
    requires b.reaction in index && index[b.reaction] < |x|
  {
    (b.operation == GreaterEqual ==> x[index[b.reaction]] >= b.value)
    && (b.operation == LessEqual ==> x[index[b.reaction]] <= b.value)
  }

  /** The flux vector keeps every `>=` and `<=` bound. */
  predicate KeepsInequalityBounds(bounds: seq<FluxBound>, index: map<string, nat>, x: seq<real>)
    requires Indexes(bounds, index) && |x| == |index|
  {
    forall j :: 0 <= j < |bounds| ==> KeepsInequalityBound(bounds[j], index, x)
  }

  /** The inequalities handed to the solver say exactly what the `>=` and `<=` bounds say. */
  lemma {:induction false} InequalitiesMeaning(bounds: seq<FluxBound>, index: map<string, nat>, x: seq<real>)
    requires Indexes(bounds, index) && |x| == |index|
    ensures (forall q :: q in Filled(bounds, index) ==> Satisfies(q, x)) <==> KeepsInequalityBounds(bounds, index, x)
  {
    if bounds != [] {
      var init := bounds[..|bounds| - 1];
      var b := bounds[|bounds| - 1];
      assert Indexes(init, index);
      InequalitiesMeaning(init, index, x);
      InequalityMeaning(b, index, x);
      var f := Filled(init, index);
      var ext := if InequalityOf(b, index).Some? then [InequalityOf(b, index).value] else [];
      assert Filled(bounds, index) == f + ext;
      if InequalityOf(b, index).Some? {
        var q := InequalityOf(b, index).value;
        assert ext == [q];
        assert Satisfies(q, x) <==> KeepsInequalityBound(b, index, x);
      } else {
        assert ext == [];
      }
      assert (forall q :: q in ext ==> Satisfies(q, x)) <==> KeepsInequalityBound(b, index, x);
      assert forall j :: 0 <= j < |init| ==> init[j] == bounds[j];
      assert KeepsInequalityBounds(bounds, index, x) <==> KeepsInequalityBounds(init, index, x) && KeepsInequalityBound(b, index, x);
    }
  }

  /** The flux vector keeps bound `b` if it is an `==` bound. */
  predicate KeepsFixedFlux(b: FluxBound, index: map<string, nat>, x: seq<real>)
    requires b.reaction in index && index[b.reaction] < |x|
  {
    b.operation == Equal ==> x[index[b.reaction]] == b.value
  }

  /** The flux vector keeps every `==` bound. */
  predicate KeepsFixedFluxes(bounds: seq<FluxBound>, index: map<string, nat>, x: seq<real>)
    requires forall j :: 0 <= j < |bounds| ==> bounds[j].reaction in index && index[bounds[j].reaction] < |x|
  {
    forall j :: 0 <= j < |bounds| ==> KeepsFixedFlux(bounds[j], index, x)
  }

  /** The fixed-flux rows, with the bound values on the right, say exactly what the `==` bounds say. */
  lemma {:induction false} FixedFluxesMeaning(bounds: seq<FluxBound>, index: map<string, nat>, x: seq<real>)
    requires Indexes(bounds, index) && BoundRows(bounds, index, |x|).Ok?
    requires forall j :: 0 <= j < |bounds| ==> index[bounds[j].reaction] < |x|
    ensures |BoundRows(bounds, index, |x|).value| == |BoundValues(bounds)|
    ensures (forall i :: 0 <= i < |BoundValues(bounds)| ==> Dot(BoundRows(bounds, index, |x|).value[i], x) == BoundValues(bounds)[i])
            <==> KeepsFixedFluxes(bounds, index, x)
  {
    BoundRowCount(bounds, index, |x|);
    if bounds != [] {
      var init := bounds[..|bounds| - 1];
      var b := bounds[|bounds| - 1];
      assert Indexes(init, index);
      FixedFluxesMeaning(init, index, x);
      var rows := BoundRows(init, index, |x|).value;
      var values := BoundValues(init);
      assert forall j :: 0 <= j < |init| ==> init[j] == bounds[j];
      assert KeepsFixedFluxes(bounds, index, x) <==> KeepsFixedFluxes(init, index, x) && KeepsFixedFlux(b, index, x);
      if b.operation == Equal {
        FixedFluxMeaning(b, index, |x|, x);
        var row := Row(|x|, index[b.reaction], 1.0);
        assert BoundRows(bounds, index, |x|).value == rows + [row];
        assert BoundValues(bounds) == values + [b.value];
        assert forall i :: 0 <= i < |values| ==> (rows + [row])[i] == rows[i] && (values + [b.value])[i] == values[i];
        assert (rows + [row])[|values|] == row && (values + [b.value])[|values|] == b.value;
      }
    }
  }
}
