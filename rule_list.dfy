/**
 * The rule list of an SBML model as the rule panel sees it: the display
 * string of each rule, the rebuilding of the list from display strings, and
 * the checks that decide whether a variable may receive another rule.
 * Formulas are carried as text: the math of a rule is the string the formula
 * printer produced or the string handed to the formula parser.
 */
module RuleList {
  import JavaText
  import Rules
  import opened Wrappers

  datatype SbmlRule =
    | AlgebraicRule(math: string)
    | AssignmentRule(variable: string, math: string)
    | RateRule(variable: string, math: string)

  /** The kind the display string of a rule announces with its first token. */
  function KindOf(r: SbmlRule): Rules.RuleKind
  {
    match r
    case AlgebraicRule(_) => Rules.Algebraic
    case AssignmentRule(_, _) => Rules.Assignment
    case RateRule(_, _) => Rules.Rate
  }

  /** "0 = f", "v = f" or "d( v )/dt = f". */
  function Display(r: SbmlRule): string
  {
    match r
    case AlgebraicRule(f) => "0 = " + f
    case AssignmentRule(v, f) => v + " = " + f
    case RateRule(v, f) => "d( " + v + " )/dt = " + f
  }

  /** Everything after the first "=", or the whole string when there is none. */
  function FormulaText(s: string): (f: string)
    ensures |f| <= |s| && f == s[|s| - |f|..]
  {
    s[JavaText.IndexOf(s, "=") + 1..]
  }

  /** The outcome of recreating one rule from its display string. */
  datatype Recreated = Made(rule: SbmlRule) | Threw(partial: seq<SbmlRule>)

  /**
   * updateRules on one string: the first token chooses the kind; a string
   * without tokens throws before anything is created, and a rate string with
   * a single token throws after its (still empty) rate rule was created.
   */
  function RecreateRule(tok: Rules.Tokenizer, s: string): Recreated
  {
    var toks := tok(s);
    if |toks| == 0 then Threw([])
    else if toks[0] == "0" then Made(AlgebraicRule(FormulaText(s)))
    else if toks[0] == "d(" then
      if |toks| < 2 then Threw([RateRule("", "")]) else Made(RateRule(toks[1], FormulaText(s)))
    else Made(AssignmentRule(toks[0], FormulaText(s)))
  }

  /** A made rule has the kind sortRules gives its string; a string throws exactly when it has no token, or is a lone "d(". */
  lemma RecreateRuleKind(tok: Rules.Tokenizer, s: string)
    ensures RecreateRule(tok, s).Made? ==> Rules.Classify(tok, s) == Some(KindOf(RecreateRule(tok, s).rule))
    ensures RecreateRule(tok, s).Threw? <==>
      !Rules.WellFormed(tok, s) || (Rules.Head(tok, s) == "d(" && |tok(s)| < 2)
  {
  }

  /** The rules the list holds after rebuilding, and the index of the string that threw, if one did. */
  datatype Rebuild = Rebuild(rules: seq<SbmlRule>, failedAt: Option<nat>)

  function Rebuilt(tok: Rules.Tokenizer, strs: seq<string>): Rebuild
  {
    if |strs| == 0 then Rebuild([], None)
    else
      var prev := Rebuilt(tok, strs[..|strs| - 1]);
      if prev.failedAt.Some? then prev
      else match RecreateRule(tok, strs[|strs| - 1])
        case Made(r) => Rebuild(prev.rules + [r], None)
        case Threw(p) => Rebuild(prev.rules + p, Some(|strs| - 1))
  }

  /** Without a failure, the list holds one recreated rule per string, in order. */
  lemma {:induction false} RebuiltComplete(tok: Rules.Tokenizer, strs: seq<string>)
    ensures Rebuilt(tok, strs).failedAt == None <==> forall k :: 0 <= k < |strs| ==> RecreateRule(tok, strs[k]).Made?
    ensures Rebuilt(tok, strs).failedAt == None ==>
      |Rebuilt(tok, strs).rules| == |strs| && forall k :: 0 <= k < |strs| ==> Rebuilt(tok, strs).rules[k] == RecreateRule(tok, strs[k]).rule
  {
    if |strs| > 0 {
      var init := strs[..|strs| - 1];
      RebuiltComplete(tok, init);
      assert forall k :: 0 <= k < |init| ==> init[k] == strs[k];
    }
  }

  /** When every string but the last was recreated, a failure is at the last one. */
  lemma RebuiltFailsLast(tok: Rules.Tokenizer, strs: seq<string>)
    requires |strs| > 0 && Rebuilt(tok, strs[..|strs| - 1]).failedAt.None? && Rebuilt(tok, strs).failedAt.Some?
    ensures var k := Rebuilt(tok, strs).failedAt.value;
      k == |strs| - 1 && RecreateRule(tok, strs[k]).Threw?
      && (forall m :: 0 <= m < k ==> RecreateRule(tok, strs[m]).Made?)
      && Rebuilt(tok, strs).rules == Rebuilt(tok, strs[..k]).rules + RecreateRule(tok, strs[k]).partial
  {
    var init := strs[..|strs| - 1];
    RebuiltComplete(tok, init);
    assert forall m :: 0 <= m < |init| ==> init[m] == strs[m];
  }

  /** A failure is at the first string that throws; the rules before it stay, followed by what it created. */
  lemma {:induction false} RebuiltFailure(tok: Rules.Tokenizer, strs: seq<string>)
    requires Rebuilt(tok, strs).failedAt.Some?
    ensures var k := Rebuilt(tok, strs).failedAt.value;
      k < |strs| && RecreateRule(tok, strs[k]).Threw?
      && (forall m :: 0 <= m < k ==> RecreateRule(tok, strs[m]).Made?)
      && Rebuilt(tok, strs).rules == Rebuilt(tok, strs[..k]).rules + RecreateRule(tok, strs[k]).partial
  {
    var init := strs[..|strs| - 1];
    if Rebuilt(tok, init).failedAt.Some? {
      RebuiltFailure(tok, init);
      var k := Rebuilt(tok, init).failedAt.value;
      assert Rebuilt(tok, strs) == Rebuilt(tok, init);
      assert init[..k] == strs[..k] && init[k] == strs[k];
      assert forall m :: 0 <= m < k ==> init[m] == strs[m];
    } else {
      RebuiltFailsLast(tok, strs);
    }
  }

  /** Once a string has thrown, the strings after it change nothing. */
  lemma {:induction false} RebuiltSticks(tok: Rules.Tokenizer, strs: seq<string>, n: nat)
    requires n <= |strs| && Rebuilt(tok, strs[..n]).failedAt.Some?
    ensures Rebuilt(tok, strs) == Rebuilt(tok, strs[..n])
    decreases |strs|
  {
    if n < |strs| {
      var init := strs[..|strs| - 1];
      assert init[..n] == strs[..n];
      RebuiltSticks(tok, init, n);
    } else {
      assert strs[..n] == strs;
    }
  }

  /** A variable the display string and split(" ") keep intact, that is no kind marker. */
  predicate PlainVariable(v: string)
  {
    v != "" && ' ' !in v && '=' !in v && v != "0" && v != "d("
  }

  predicate Displayable(r: SbmlRule)
  {
    r.AlgebraicRule? || PlainVariable(r.variable)
  }

  /** The formula text handed back to the parser keeps the blank that follows "=". */
  function Reparsed(r: SbmlRule): SbmlRule
  {
    match r
    case AlgebraicRule(f) => AlgebraicRule(" " + f)
    case AssignmentRule(v, f) => AssignmentRule(v, " " + f)
    case RateRule(v, f) => RateRule(v, " " + f)
  }

  lemma AlgebraicRoundTrip(f: string)
    ensures RecreateRule(Rules.Tokens, Display(AlgebraicRule(f))) == Made(AlgebraicRule(" " + f))
  {
    var s := Display(AlgebraicRule(f));
    assert s == "0" + [' '] + ("= " + f);
    JavaText.SplitFirstField("0", ' ', "= " + f);
    assert s == "0 " + ['='] + (" " + f);
    JavaText.IndexOfChar("0 ", '=', " " + f);
    assert s[3..] == " " + f;
  }

  /** The display string of an assignment, cut at its "=" instead of its first blank. */
  lemma AssignmentAtEquals(v: string, f: string)
    ensures v + [' '] + ("= " + f) == (v + " ") + ['='] + (" " + f)
  {
  }

  lemma AssignmentRoundTrip(v: string, f: string)
    requires PlainVariable(v)
    ensures RecreateRule(Rules.Tokens, Display(AssignmentRule(v, f))) == Made(AssignmentRule(v, " " + f))
  {
    var s := Display(AssignmentRule(v, f));
    assert s == v + [' '] + ("= " + f);
    JavaText.SplitFirstField(v, ' ', "= " + f);
    AssignmentAtEquals(v, f);
    JavaText.IndexOfChar(v + " ", '=', " " + f);
    assert s[|v| + 2..] == " " + f;
  }

  /** The display string of a rate rule, cut at its "=": the part before it has no other "=". */
  lemma RateAtEquals(v: string, f: string)
    requires PlainVariable(v)
    ensures "d(" + [' '] + v + [' '] + (")/dt = " + f) == ("d( " + v + " )/dt ") + ['='] + (" " + f)
    ensures '=' !in "d( " + v + " )/dt "
  {
    var a := "d( " + v + " )/dt ";
    assert forall k :: 0 <= k < |a| && a[k] == '=' ==> 3 <= k < 3 + |v| && a[k] == v[k - 3];
  }

  lemma RateRoundTrip(v: string, f: string)
    requires PlainVariable(v)
    ensures RecreateRule(Rules.Tokens, Display(RateRule(v, f))) == Made(RateRule(v, " " + f))
  {
    var s := Display(RateRule(v, f));
    assert s == "d(" + [' '] + v + [' '] + (")/dt = " + f);
    JavaText.SplitSecondField("d(", v, ' ', ")/dt = " + f);
    var a := "d( " + v + " )/dt ";
    RateAtEquals(v, f);
    JavaText.IndexOfChar(a, '=', " " + f);
    assert s[|a| + 1..] == " " + f;
  }

  /** Recreating a rule from its display string gives the rule back, its formula text after the blank. */
  lemma DisplayRoundTrip(r: SbmlRule)
    requires Displayable(r)
    ensures RecreateRule(Rules.Tokens, Display(r)) == Made(Reparsed(r))
    ensures Rules.Classify(Rules.Tokens, Display(r)) == Some(KindOf(r))
  {
    RecreateRuleKind(Rules.Tokens, Display(r));
    match r
    case AlgebraicRule(f) => AlgebraicRoundTrip(f);
    case AssignmentRule(v, f) => AssignmentRoundTrip(v, f);
    case RateRule(v, f) => RateRoundTrip(v, f);
  }

  function DisplayAll(rs: seq<SbmlRule>): (ss: seq<string>)
    ensures |ss| == |rs|
  {
    if |rs| == 0 then [] else DisplayAll(rs[..|rs| - 1]) + [Display(rs[|rs| - 1])]
  }

  function ReparsedAll(rs: seq<SbmlRule>): (qs: seq<SbmlRule>)
    ensures |qs| == |rs|
  {
    if |rs| == 0 then [] else ReparsedAll(rs[..|rs| - 1]) + [Reparsed(rs[|rs| - 1])]
  }

  /** Rebuilding from the display strings of a rule list recreates that list, and nothing throws. */
  lemma {:induction false} RebuildFromDisplay(rs: seq<SbmlRule>)
    requires forall k :: 0 <= k < |rs| ==> Displayable(rs[k])
    ensures Rebuilt(Rules.Tokens, DisplayAll(rs)) == Rebuild(ReparsedAll(rs), None)
  {
    if |rs| > 0 {
      var init := rs[..|rs| - 1];
      RebuildFromDisplay(init);
      DisplayRoundTrip(rs[|rs| - 1]);
      var ss := DisplayAll(rs);
      assert ss[..|ss| - 1] == DisplayAll(init);
    }
  }

  /** The model's list of rules, which updateRules clears and refills. */
  class RuleSet {
    var rules: seq<SbmlRule>

    constructor (initial: seq<SbmlRule>)
      ensures rules == initial
    {
      rules := initial;
    }

    /**
     * updateRules: removes every rule, then recreates one per string in
     * order. An exception ends it early, leaving what was created so far.
     */
    method UpdateRules(rul: array<string>) returns (failedAt: Option<nat>)
      modifies this
      ensures Rebuild(rules, failedAt) == Rebuilt(Rules.Tokens, rul[..])
    {
      while |rules| > 0
        decreases |rules|
      {
        rules := rules[1..];
      }
      for i := 0 to rul.Length
        invariant Rebuilt(Rules.Tokens, rul[..i]) == Rebuild(rules, None)
      {
        assert rul[..i + 1][..i] == rul[..i];
        var toks := Rules.Tokens(rul[i]);
        if |toks| == 0 {
          RebuiltSticks(Rules.Tokens, rul[..], i + 1);
          return Some(i);
        }
        if toks[0] == "0" {
          rules := rules + [AlgebraicRule(FormulaText(rul[i]))];
        } else if toks[0] == "d(" {
          rules := rules + [RateRule("", "")];
          if |toks| < 2 {
            RebuiltSticks(Rules.Tokens, rul[..], i + 1);
            return Some(i);
          }
          rules := rules[..|rules| - 1] + [RateRule(toks[1], FormulaText(rul[i]))];
        } else {
          rules := rules + [AssignmentRule(toks[0], FormulaText(rul[i]))];
        }
      }
      assert rul[..rul.Length] == rul[..];
      return None;
    }
  }

  // ---------------------------------------------------------------------
  // Whether a variable may receive another rule

  /** An event, by the variables its event assignments set. */
  datatype EventDef = EventDef(assignedVariables: seq<string>)

  /** The parts of a model the checks look at. */
  datatype Document = Document(initialAssignmentSymbols: seq<string>, events: seq<EventDef>, rules: seq<SbmlRule>)

  predicate HasInitialAssignment(doc: Document, id: string)
  {
    exists k :: 0 <= k < |doc.initialAssignmentSymbols| && doc.initialAssignmentSymbols[k] == id
  }

  predicate HasEventAssignment(doc: Document, id: string)
  {
    exists e, a :: 0 <= e < |doc.events| && 0 <= a < |doc.events[e].assignedVariables|
                   && doc.events[e].assignedVariables[a] == id
  }

  predicate HasAssignmentRule(rules: seq<SbmlRule>, id: string)
  {
    exists k :: 0 <= k < |rules| && rules[k].AssignmentRule? && rules[k].variable == id
  }

  predicate HasRateRule(rules: seq<SbmlRule>, id: string)
  {
    exists k :: 0 <= k < |rules| && rules[k].RateRule? && rules[k].variable == id
  }

  /** The variable being edited keeps its rule; any other must not be set by anything else. */
  predicate MayAssign(doc: Document, selected: string, id: string)
  {
    selected == id
    || !(HasInitialAssignment(doc, id) || HasEventAssignment(doc, id)
         || HasAssignmentRule(doc.rules, id) || HasRateRule(doc.rules, id))
  }

  predicate MayRate(doc: Document, selected: string, id: string)
  {
    selected == id || !HasRateRule(doc.rules, id)
  }

  /** keepVarAssignRule: searches initial assignments, event assignments, then rules. */
  method KeepVarAssignRule(doc: Document, selected: string, id: string) returns (keep: bool)
    ensures keep <==> MayAssign(doc, selected, id)
  {
    if selected != id {
      var ia := doc.initialAssignmentSymbols;
      for i := 0 to |ia|
        invariant forall k :: 0 <= k < i ==> ia[k] != id
      {
        if ia[i] == id {
          return false;
        }
      }
      for i := 0 to |doc.events|
        invariant forall e, a :: 0 <= e < i && 0 <= a < |doc.events[e].assignedVariables|
                                 ==> doc.events[e].assignedVariables[a] != id
      {
        var event := doc.events[i];
        for j := 0 to |event.assignedVariables|
          invariant forall a :: 0 <= a < j ==> event.assignedVariables[a] != id
        {
          if id == event.assignedVariables[j] {
            return false;
          }
        }
      }
      for i := 0 to |doc.rules|
        invariant !HasAssignmentRule(doc.rules[..i], id) && !HasRateRule(doc.rules[..i], id)
      {
        var rule := doc.rules[i];
        if rule.AssignmentRule? && rule.variable == id {
          assert doc.rules[i] == rule;
          return false;
        }
        if rule.RateRule? && rule.variable == id {
          assert doc.rules[i] == rule;
          return false;
        }
        assert forall k :: 0 <= k <= i ==> doc.rules[..i + 1][k] == doc.rules[k];
      }
      assert doc.rules[..|doc.rules|] == doc.rules;
    }
    return true;
  }

  /** keepVarRateRule: searches the rules for a rate rule on the variable. */
  method KeepVarRateRule(doc: Document, selected: string, id: string) returns (keep: bool)
    ensures keep <==> MayRate(doc, selected, id)
  {
    if selected != id {
      for i := 0 to |doc.rules|
        invariant !HasRateRule(doc.rules[..i], id)
      {
        var rule := doc.rules[i];
        if rule.RateRule? && rule.variable == id {
          assert doc.rules[i] == rule;
          return false;
        }
        assert forall k :: 0 <= k <= i ==> doc.rules[..i + 1][k] == doc.rules[k];
      }
      assert doc.rules[..|doc.rules|] == doc.rules;
    }
    return true;
  }

  /** A variable free for an assignment rule is free for a rate rule. */
  lemma MayAssignThenMayRate(doc: Document, selected: string, id: string)
    ensures MayAssign(doc, selected, id) ==> MayRate(doc, selected, id)
    ensures (MayRate(doc, selected, id) && !HasInitialAssignment(doc, id) && !HasEventAssignment(doc, id)
             && !HasAssignmentRule(doc.rules, id)) ==> MayAssign(doc, selected, id)
  {
  }

  /** Once a rate rule sets `id`, no other variable's editor may give `id` a rule of either kind. */
  lemma RateRuleBlocksOthers(doc: Document, selected: string, id: string, f: string)
    ensures var doc' := doc.(rules := doc.rules + [RateRule(id, f)]);
      (MayRate(doc', selected, id) <==> selected == id) && (MayAssign(doc', selected, id) <==> selected == id)
  {
    var rules' := doc.rules + [RateRule(id, f)];
    assert rules'[|doc.rules|] == RateRule(id, f);
  }
}
