/**
 * The rule panel of the SBML editor: the display strings of rules, the
 * ordering of those strings so that each assignment rule comes after the
 * rules it reads (algebraic rules first, rate rules last, a dependency cycle
 * reported), the rebuilding of the rule list from display strings, and the
 * checks that decide whether a variable may receive another rule.
 */
module Rules {
  import JavaText
  import opened Wrappers

  // ---------------------------------------------------------------------
  // Picking elements by class, generically

  /** The elements of `xs` whose class is `k`, in order. */
  function Pick<T, K(==)>(xs: seq<T>, cls: T -> K, k: K): seq<T>
  {
    if |xs| == 0 then []
    else Pick(xs[..|xs| - 1], cls, k) + (if cls(xs[|xs| - 1]) == k then [xs[|xs| - 1]] else [])
  }

  lemma PickNext<T, K>(xs: seq<T>, i: nat, cls: T -> K, k: K)
    requires i < |xs|
    ensures Pick(xs[..i + 1], cls, k) == Pick(xs[..i], cls, k) + (if cls(xs[i]) == k then [xs[i]] else [])
  {
    assert xs[..i + 1][..i] == xs[..i];
  }

  lemma {:induction false} PickAppend<T, K>(a: seq<T>, b: seq<T>, cls: T -> K, k: K)
    ensures Pick(a + b, cls, k) == Pick(a, cls, k) + Pick(b, cls, k)
  {
    if |b| == 0 {
      assert a + b == a;
    } else {
      var b' := b[..|b| - 1];
      PickAppend(a, b', cls, k);
      assert (a + b)[..|a + b| - 1] == a + b';
    }
  }

  lemma {:induction false} PickContains<T, K>(xs: seq<T>, i: nat, cls: T -> K, k: K)
    requires i < |xs| && cls(xs[i]) == k
    ensures xs[i] in multiset(Pick(xs, cls, k))
  {
    if i < |xs| - 1 {
      PickContains(xs[..|xs| - 1], i, cls, k);
    }
  }

  /** Three distinct classes that cover every element split the sequence. */
  lemma {:induction false} PickPartition<T, K>(xs: seq<T>, cls: T -> K, a: K, b: K, c: K)
    requires a != b && b != c && a != c
    requires forall i :: 0 <= i < |xs| ==> cls(xs[i]) == a || cls(xs[i]) == b || cls(xs[i]) == c
    ensures multiset(Pick(xs, cls, a)) + multiset(Pick(xs, cls, b)) + multiset(Pick(xs, cls, c)) == multiset(xs)
  {
    if |xs| > 0 {
      var init, x := xs[..|xs| - 1], xs[|xs| - 1];
      PickPartition(init, cls, a, b, c);
      assert xs == init + [x];
      var pa, pb, pc := Pick(init, cls, a), Pick(init, cls, b), Pick(init, cls, c);
      var qa, qb, qc := Pick(xs, cls, a), Pick(xs, cls, b), Pick(xs, cls, c);
      assert qa == pa + (if cls(x) == a then [x] else []);
      assert qb == pb + (if cls(x) == b then [x] else []);
      assert qc == pc + (if cls(x) == c then [x] else []);
      AddOne(pa, pb, pc, init, x, cls(x) == a, cls(x) == b);
    }
  }

  /** Adding `x` to exactly one of three parts that make up `whole`. */
  lemma AddOne<T>(p: seq<T>, q: seq<T>, r: seq<T>, whole: seq<T>, x: T, toP: bool, toQ: bool)
    requires multiset(p) + multiset(q) + multiset(r) == multiset(whole)
    requires !(toP && toQ)
    ensures multiset(p + (if toP then [x] else [])) + multiset(q + (if toQ then [x] else []))
            + multiset(r + (if !toP && !toQ then [x] else [])) == multiset(whole + [x])
  {
    assert multiset(whole + [x]) == multiset(whole) + multiset{x};
    if toP {
      assert multiset(p + [x]) == multiset(p) + multiset{x};
      assert q + [] == q && r + [] == r;
    } else if toQ {
      assert multiset(q + [x]) == multiset(q) + multiset{x};
      assert p + [] == p && r + [] == r;
    } else {
      assert multiset(r + [x]) == multiset(r) + multiset{x};
      assert p + [] == p && q + [] == q;
    }
  }

  lemma {:induction false} PickCount<T, K>(xs: seq<T>, cls: T -> K, a: K, b: K, c: K)
    requires a != b && b != c && a != c
    requires forall i :: 0 <= i < |xs| ==> cls(xs[i]) == a || cls(xs[i]) == b || cls(xs[i]) == c
    ensures |Pick(xs, cls, a)| + |Pick(xs, cls, b)| + |Pick(xs, cls, c)| == |xs|
  {
    if |xs| > 0 {
      PickCount(xs[..|xs| - 1], cls, a, b, c);
    }
  }

  /** The elements of class `k` whose mark is clear, in order. */
  function Unmarked<T, K(==)>(xs: seq<T>, marks: seq<bool>, cls: T -> K, k: K): seq<T>
    requires |marks| == |xs|
  {
    if |xs| == 0 then []
    else
      Unmarked(xs[..|xs| - 1], marks[..|xs| - 1], cls, k)
      + (if cls(xs[|xs| - 1]) == k && !marks[|xs| - 1] then [xs[|xs| - 1]] else [])
  }

  lemma {:induction false} UnmarkedAllClear<T, K>(xs: seq<T>, marks: seq<bool>, cls: T -> K, k: K)
    requires |marks| == |xs|
    requires forall i :: 0 <= i < |xs| && cls(xs[i]) == k ==> !marks[i]
    ensures Unmarked(xs, marks, cls, k) == Pick(xs, cls, k)
  {
    if |xs| > 0 {
      UnmarkedAllClear(xs[..|xs| - 1], marks[..|xs| - 1], cls, k);
    }
  }

  /** Setting the mark of an unmarked element of class `k` removes exactly that element. */
  lemma {:induction false} UnmarkedMark<T, K>(xs: seq<T>, marks: seq<bool>, cls: T -> K, k: K, i: nat)
    requires |marks| == |xs| && i < |xs| && cls(xs[i]) == k && !marks[i]
    ensures multiset(Unmarked(xs, marks, cls, k)) == multiset(Unmarked(xs, marks[i := true], cls, k)) + multiset{xs[i]}
  {
    var n := |xs|;
    var marks' := marks[i := true];
    var init, x := xs[..n - 1], xs[n - 1];
    if i == n - 1 {
      assert marks'[..n - 1] == marks[..n - 1];
      var u := Unmarked(init, marks[..n - 1], cls, k);
      assert Unmarked(xs, marks, cls, k) == u + [x];
      assert Unmarked(xs, marks', cls, k) == u;
    } else {
      assert marks'[..n - 1] == marks[..n - 1][i := true];
      UnmarkedMark(init, marks[..n - 1], cls, k, i);
      var u, u' := Unmarked(init, marks[..n - 1], cls, k), Unmarked(init, marks'[..n - 1], cls, k);
      var t := if cls(x) == k && !marks[n - 1] then [x] else [];
      assert Unmarked(xs, marks, cls, k) == u + t;
      assert Unmarked(xs, marks', cls, k) == u' + t;
      assert multiset(u + t) == multiset(u) + multiset(t);
      assert multiset(u' + t) == multiset(u') + multiset(t);
    }
  }

  lemma {:induction false} UnmarkedEmpty<T, K>(xs: seq<T>, marks: seq<bool>, cls: T -> K, k: K)
    requires |marks| == |xs|
    ensures |Unmarked(xs, marks, cls, k)| == 0 <==> forall i :: 0 <= i < |xs| && cls(xs[i]) == k ==> marks[i]
  {
    if |xs| > 0 {
      UnmarkedEmpty(xs[..|xs| - 1], marks[..|xs| - 1], cls, k);
    }
  }

  lemma {:induction false} PickPrefix<T, K>(xs: seq<T>, i: nat, cls: T -> K, k: K)
    requires i <= |xs|
    ensures |Pick(xs[..i], cls, k)| <= |Pick(xs, cls, k)|
  {
    PickAppend(xs[..i], xs[i..], cls, k);
    assert xs[..i] + xs[i..] == xs;
  }

  // ---------------------------------------------------------------------
  // Rule strings

  /**
   * How a rule string is cut into tokens. The ordering below is stated for
   * any cutting; the panel cuts with split(" "), which is `Tokens`.
   */
  type Tokenizer = string -> seq<string>

  /** The tokens of a rule string, as split(" ") gives them. */
  function Tokens(r: string): seq<string>
  {
    JavaText.Split(r, " ")
  }

  /**
   * A rule string with a first token. Under `Tokens` only a non-empty string
   * of spaces has none, and for it split(" ")[0] throws.
   */
  predicate WellFormed(tok: Tokenizer, r: string)
  {
    |tok(r)| > 0
  }

  function Head(tok: Tokenizer, r: string): string
    requires WellFormed(tok, r)
  {
    tok(r)[0]
  }

  datatype RuleKind = Algebraic | Assignment | Rate

  /** "0" starts an algebraic rule, "d(" a rate rule, any other first token an assignment. */
  function Classify(tok: Tokenizer, r: string): Option<RuleKind>
  {
    if !WellFormed(tok, r) then None
    else if Head(tok, r) == "0" then Some(Algebraic)
    else if Head(tok, r) == "d(" then Some(Rate)
    else Some(Assignment)
  }

  function ClassifyBy(tok: Tokenizer): string -> Option<RuleKind>
  {
    r => Classify(tok, r)
  }

  predicate IsKind(tok: Tokenizer, r: string, k: RuleKind)
  {
    Classify(tok, r) == Some(k)
  }

  predicate AllWellFormed(tok: Tokenizer, rs: seq<string>)
  {
    forall i :: 0 <= i < |rs| ==> WellFormed(tok, rs[i])
  }

  /** Rule `a` reads the variable that rule `b` assigns: a token of `a` after the first is `b`'s head. */
  predicate DependsOn(tok: Tokenizer, a: string, b: string)
  {
    WellFormed(tok, b) && exists k :: 1 <= k < |tok(a)| && tok(a)[k] == Head(tok, b)
  }

  /** The rules of one kind, in input order. */
  function Select(tok: Tokenizer, rs: seq<string>, k: RuleKind): seq<string>
  {
    Pick(rs, ClassifyBy(tok), Some(k))
  }

  /** The three kinds split a list of well-formed rules. */
  lemma SelectPartition(tok: Tokenizer, rs: seq<string>)
    requires AllWellFormed(tok, rs)
    ensures multiset(Select(tok, rs, Algebraic)) + multiset(Select(tok, rs, Assignment)) + multiset(Select(tok, rs, Rate))
            == multiset(rs)
    ensures |Select(tok, rs, Algebraic)| + |Select(tok, rs, Assignment)| + |Select(tok, rs, Rate)| == |rs|
  {
    var cls := ClassifyBy(tok);
    forall i | 0 <= i < |rs|
      ensures cls(rs[i]) == Some(Algebraic) || cls(rs[i]) == Some(Assignment) || cls(rs[i]) == Some(Rate)
    {
      assert WellFormed(tok, rs[i]);
    }
    PickPartition(rs, cls, Some(Algebraic), Some(Assignment), Some(Rate));
    PickCount(rs, cls, Some(Algebraic), Some(Assignment), Some(Rate));
  }

  // ---------------------------------------------------------------------
  // The state of sortRules

  /** The assignment rules whose `used` flag is still clear. */
  function Unplaced(tok: Tokenizer, rs: seq<string>, used: seq<bool>): seq<string>
    requires |used| == |rs|
  {
    Unmarked(rs, used, ClassifyBy(tok), Some(Assignment))
  }

  /** No rule reads a variable assigned by itself or by a rule placed after it. */
  predicate Ordered(tok: Tokenizer, mid: seq<string>)
  {
    forall p, q :: 0 <= p <= q < |mid| ==> !DependsOn(tok, mid[p], mid[q])
  }

  /** No placed rule reads a variable assigned by a rule still unplaced. */
  predicate Respects(tok: Tokenizer, mid: seq<string>, rs: seq<string>, used: seq<bool>)
    requires |used| == |rs|
  {
    forall p, l :: 0 <= p < |mid| && 0 <= l < |rs| && !used[l] && IsKind(tok, rs[l], Assignment)
                   ==> !DependsOn(tok, mid[p], rs[l])
  }

  /** Rule i reads the variable of some unplaced assignment rule (possibly itself). */
  predicate Blocked(tok: Tokenizer, rs: seq<string>, used: seq<bool>, i: nat)
  {
    |used| == |rs| && i < |rs|
    && exists l :: 0 <= l < |rs| && !used[l] && IsKind(tok, rs[l], Assignment) && DependsOn(tok, rs[i], rs[l])
  }

  /** Every unplaced assignment rule before position `n` is blocked. */
  predicate AllBlockedBelow(tok: Tokenizer, rs: seq<string>, used: seq<bool>, n: nat)
    requires |used| == |rs|
  {
    forall i {:trigger Blocked(tok, rs, used, i)} ::
      0 <= i < n && i < |rs| && !used[i] && IsKind(tok, rs[i], Assignment) ==> Blocked(tok, rs, used, i)
  }

  /** Rule i reads a variable assigned by a rule of the set `s`. */
  predicate ReadsInside(tok: Tokenizer, rs: seq<string>, s: set<int>, i: int)
    requires 0 <= i < |rs|
  {
    exists l :: l in s && 0 <= l < |rs| && DependsOn(tok, rs[i], rs[l])
  }

  /** A non-empty set of assignment rules each of which reads a variable assigned inside the set. */
  predicate Stuck(tok: Tokenizer, rs: seq<string>, s: set<int>)
  {
    (exists i :: i in s)
    && (forall i :: i in s ==> 0 <= i < |rs| && IsKind(tok, rs[i], Assignment))
    && (forall i {:trigger ReadsInside(tok, rs, s, i)} :: i in s && 0 <= i < |rs| ==> ReadsInside(tok, rs, s, i))
  }

  /** What holds between passes: algebraic prefix, then a growing dependency-ordered middle. */
  predicate PassInv(tok: Tokenizer, rs: seq<string>, used: seq<bool>, res: seq<string>, j: int, nAlg: int)
  {
    |used| == |rs| && |res| == |rs| && AllWellFormed(tok, rs)
    && nAlg == |Select(tok, rs, Algebraic)| && nAlg <= j <= |rs|
    && res[..nAlg] == Select(tok, rs, Algebraic)
    && multiset(res[nAlg..j]) + multiset(Unplaced(tok, rs, used)) == multiset(Select(tok, rs, Assignment))
    && Ordered(tok, res[nAlg..j])
    && Respects(tok, res[nAlg..j], rs, used)
  }

  /** After the algebraic rules are placed and marked, the pass invariant holds with an empty middle. */
  lemma StartPassInv(tok: Tokenizer, rs: seq<string>, used: seq<bool>, res: seq<string>, j: int)
    requires |used| == |rs| && |res| == |rs| && AllWellFormed(tok, rs)
    requires 0 <= j <= |rs| && res[..j] == Select(tok, rs, Algebraic)
    requires forall k :: 0 <= k < |rs| ==> (used[k] <==> IsKind(tok, rs[k], Algebraic))
    ensures PassInv(tok, rs, used, res, j, j)
  {
    UnmarkedAllClear(rs, used, ClassifyBy(tok), Some(Assignment));
    assert res[j..j] == [];
  }

  /** Moving an unplaced assignment rule to the end of the middle keeps middle and unplaced rules together the assignment rules. */
  lemma PlaceCount(tok: Tokenizer, rs: seq<string>, used: seq<bool>, mid: seq<string>, i: nat)
    requires |used| == |rs| && i < |rs| && !used[i] && IsKind(tok, rs[i], Assignment)
    requires multiset(mid) + multiset(Unplaced(tok, rs, used)) == multiset(Select(tok, rs, Assignment))
    ensures |mid| < |Select(tok, rs, Assignment)|
    ensures multiset(mid + [rs[i]]) + multiset(Unplaced(tok, rs, used[i := true])) == multiset(Select(tok, rs, Assignment))
  {
    UnmarkedMark(rs, used, ClassifyBy(tok), Some(Assignment), i);
    Grown(mid, Unplaced(tok, rs, used[i := true]), Select(tok, rs, Assignment), rs[i]);
  }

  /** Placing an unblocked, unplaced assignment rule at the end of the middle keeps the invariant. */
  lemma PlaceStep(tok: Tokenizer, rs: seq<string>, used: seq<bool>, res: seq<string>, j: int, nAlg: int, i: nat)
    requires PassInv(tok, rs, used, res, j, nAlg)
    requires i < |rs| && !used[i] && IsKind(tok, rs[i], Assignment) && !Blocked(tok, rs, used, i)
    ensures j < |rs|
    ensures PassInv(tok, rs, used[i := true], res[j := rs[i]], j + 1, nAlg)
  {
    var mid := res[nAlg..j];
    PlaceCount(tok, rs, used, mid, i);
    SelectPartition(tok, rs);
    var res' := res[j := rs[i]];
    assert res'[..nAlg] == res[..nAlg];
    assert res'[nAlg..j + 1] == mid + [rs[i]];
    PlaceOrdered(tok, rs, used, mid, i);
  }

  /** Moving `x` from the unplaced part to the end of the placed part keeps their union. */
  lemma Grown<T>(placed: seq<T>, unplaced: seq<T>, all: seq<T>, x: T)
    requires multiset(placed) + multiset(unplaced) + multiset{x} == multiset(all)
    ensures |placed| < |all|
    ensures multiset(placed + [x]) + multiset(unplaced) == multiset(all)
  {
    assert |multiset(placed) + multiset(unplaced) + multiset{x}| == |multiset(all)|;
    assert multiset(placed + [x]) == multiset(placed) + multiset{x};
  }

  /** An unblocked rule may follow the placed ones. */
  lemma PlaceOrdered(tok: Tokenizer, rs: seq<string>, used: seq<bool>, mid: seq<string>, i: nat)
    requires |used| == |rs| && i < |rs| && !used[i] && IsKind(tok, rs[i], Assignment) && !Blocked(tok, rs, used, i)
    requires Ordered(tok, mid) && Respects(tok, mid, rs, used)
    ensures Ordered(tok, mid + [rs[i]]) && Respects(tok, mid + [rs[i]], rs, used[i := true])
  {
    var x := rs[i];
    forall p, q | 0 <= p <= q < |mid| + 1
      ensures !DependsOn(tok, (mid + [x])[p], (mid + [x])[q])
    {
      if q == |mid| && p < |mid| {
        assert !DependsOn(tok, mid[p], x);
      } else if q == |mid| {
        assert !DependsOn(tok, x, x);
      } else {
        assert !DependsOn(tok, mid[p], mid[q]);
      }
    }
  }

  /** Between passes the middle never outgrows the room left for the rate rules. */
  lemma PassRoom(tok: Tokenizer, rs: seq<string>, used: seq<bool>, res: seq<string>, j: int, nAlg: int)
    requires PassInv(tok, rs, used, res, j, nAlg)
    ensures j + |Select(tok, rs, Rate)| <= |rs|
    ensures j + |Select(tok, rs, Rate)| == |rs| <==> |Unplaced(tok, rs, used)| == 0
  {
    SelectPartition(tok, rs);
    var mid := res[nAlg..j];
    assert |multiset(mid) + multiset(Unplaced(tok, rs, used))| == |multiset(Select(tok, rs, Assignment))|;
  }

  /** The unplaced assignment rules, when all of them are blocked, form a stuck set. */
  lemma BlockedAreStuck(tok: Tokenizer, rs: seq<string>, used: seq<bool>)
    requires |used| == |rs| && AllBlockedBelow(tok, rs, used, |rs|) && |Unplaced(tok, rs, used)| != 0
    ensures Stuck(tok, rs, set i | 0 <= i < |rs| && !used[i] && IsKind(tok, rs[i], Assignment))
  {
    var s := set i | 0 <= i < |rs| && !used[i] && IsKind(tok, rs[i], Assignment);
    UnmarkedEmpty(rs, used, ClassifyBy(tok), Some(Assignment));
    var i :| 0 <= i < |rs| && ClassifyBy(tok)(rs[i]) == Some(Assignment) && !used[i];
    assert i in s;
    forall t | t in s && 0 <= t < |rs|
      ensures ReadsInside(tok, rs, s, t)
    {
      assert Blocked(tok, rs, used, t);
      var l :| 0 <= l < |rs| && !used[l] && IsKind(tok, rs[l], Assignment) && DependsOn(tok, rs[t], rs[l]);
      assert l in s;
    }
  }

  /** A dependency-ordered arrangement of all assignment rules leaves no stuck set. */
  lemma NoStuckSetInRuleOrder(tok: Tokenizer, rs: seq<string>, res: seq<string>)
    requires IsRuleOrder(tok, rs, res)
    ensures forall s :: !Stuck(tok, rs, s)
  {
    var a := |Select(tok, rs, Algebraic)|;
    var z := |Select(tok, rs, Rate)|;
    forall s
      ensures !Stuck(tok, rs, s)
    {
      NoStuckSetInOrdered(tok, rs, res[a..|rs| - z], s);
    }
  }

  lemma NoStuckSetInOrdered(tok: Tokenizer, rs: seq<string>, mid: seq<string>, s: set<int>)
    requires multiset(mid) == multiset(Select(tok, rs, Assignment)) && Ordered(tok, mid)
    ensures !Stuck(tok, rs, s)
  {
    if Stuck(tok, rs, s) {
      // the rule of the set placed first reads a rule of the set, which is placed no earlier
      var i0 :| i0 in s;
      var p0 := PositionInOrder(tok, rs, mid, i0);
      var p := FirstInSet(rs, s, mid, p0);
      var t :| t in s && 0 <= t < |rs| && rs[t] == mid[p];
      assert ReadsInside(tok, rs, s, t);
      var l :| l in s && 0 <= l < |rs| && DependsOn(tok, rs[t], rs[l]);
      var q := PositionInOrder(tok, rs, mid, l);
      assert RuleOfSet(rs, s, mid[q]);
      assert false;
    }
  }

  /** Every assignment rule has a place in the middle. */
  lemma PositionInOrder(tok: Tokenizer, rs: seq<string>, mid: seq<string>, i: int) returns (p: nat)
    requires multiset(mid) == multiset(Select(tok, rs, Assignment))
    requires 0 <= i < |rs| && IsKind(tok, rs[i], Assignment)
    ensures p < |mid| && mid[p] == rs[i]
  {
    PickContains(rs, i, ClassifyBy(tok), Some(Assignment));
    assert rs[i] in multiset(mid);
    assert rs[i] in mid;
    p :| 0 <= p < |mid| && mid[p] == rs[i];
  }

  /** `x` is the rule at some position of the set `s`. */
  predicate RuleOfSet(rs: seq<string>, s: set<int>, x: string)
  {
    exists t :: t in s && 0 <= t < |rs| && rs[t] == x
  }

  /** The first position of `mid` holding a rule of the set. */
  lemma FirstInSet(rs: seq<string>, s: set<int>, mid: seq<string>, p0: nat) returns (p: nat)
    requires p0 < |mid| && RuleOfSet(rs, s, mid[p0])
    ensures p <= p0 && RuleOfSet(rs, s, mid[p])
    ensures forall q :: 0 <= q < p ==> !RuleOfSet(rs, s, mid[q])
  {
    p := 0;
    while !RuleOfSet(rs, s, mid[p])
      invariant p <= p0
      invariant forall q :: 0 <= q < p ==> !RuleOfSet(rs, s, mid[q])
      decreases p0 - p
    {
      p := p + 1;
    }
  }

  // ---------------------------------------------------------------------
  // sortRules

  datatype SortOutcome = Sorted(order: seq<string>) | CycleDetected | MalformedRule

  /**
   * `res` lists the algebraic rules, then every assignment rule in an order
   * in which none reads a variable assigned by itself or a later one, then
   * the rate rules; both outer groups keep the input order.
   */
  predicate IsRuleOrder(tok: Tokenizer, rs: seq<string>, res: seq<string>)
  {
    AllWellFormed(tok, rs) && |res| == |rs|
    && var a := |Select(tok, rs, Algebraic)|;
       var z := |Select(tok, rs, Rate)|;
       a + z <= |rs|
       && res[..a] == Select(tok, rs, Algebraic)
       && res[|rs| - z..] == Select(tok, rs, Rate)
       && multiset(res[a..|rs| - z]) == multiset(Select(tok, rs, Assignment))
       && Ordered(tok, res[a..|rs| - z])
  }

  /** A finished middle, followed by the rate rules, is a rule order holding every rule once. */
  lemma CompleteOrder(tok: Tokenizer, rs: seq<string>, used: seq<bool>, pre: seq<string>, res: seq<string>, j0: int, nAlg: int)
    requires PassInv(tok, rs, used, pre, j0, nAlg) && |Unplaced(tok, rs, used)| == 0
    requires |res| == |rs| && res[..j0] == pre[..j0]
    requires j0 + |Select(tok, rs, Rate)| == |rs| && res[j0..] == Select(tok, rs, Rate)
    ensures IsRuleOrder(tok, rs, res) && multiset(res) == multiset(rs)
  {
    assert res[..nAlg] == pre[..nAlg] && res[nAlg..j0] == pre[nAlg..j0] by {
      assert res[..nAlg] == res[..j0][..nAlg] && pre[..nAlg] == pre[..j0][..nAlg];
      assert res[nAlg..j0] == res[..j0][nAlg..] && pre[nAlg..j0] == pre[..j0][nAlg..];
    }
    SelectPartition(tok, rs);
    assert res == res[..nAlg] + res[nAlg..j0] + res[j0..];
  }

  /**
   * The inner loops of a pass: whether some token of rule i after the first
   * names the variable of an unused assignment rule.
   */
  method DependsOnUnplaced(rules: array<string>, used: array<bool>, i: nat) returns (blocked: bool)
    requires rules.Length == used.Length && i < rules.Length && AllWellFormed(Tokens, rules[..])
    ensures blocked <==> Blocked(Tokens, rules[..], used[..], i)
  {
    ghost var rs, u := rules[..], used[..];
    var rule := Tokens(rules[i]);
    var insert := true;
    var k := 1;
    while k < |rule|
      invariant 1 <= k
      invariant insert ==> forall k', l ::
        (1 <= k' < k && k' < |rule| && 0 <= l < rules.Length && !used[l] && IsKind(Tokens, rs[l], Assignment))
        ==> rule[k'] != Head(Tokens, rs[l])
      invariant !insert ==> Blocked(Tokens, rs, u, i)
      decreases |rule| - k
    {
      for l := 0 to rules.Length
        invariant insert ==> forall l' :: 0 <= l' < l && !used[l'] && IsKind(Tokens, rs[l'], Assignment)
                                          ==> rule[k] != Head(Tokens, rs[l'])
        invariant !insert ==> Blocked(Tokens, rs, u, i)
      {
        assert WellFormed(Tokens, rs[l]);
        if used[l] || Head(Tokens, rules[l]) == "0" || Head(Tokens, rules[l]) == "d(" {
          continue;
        }
        if rule[k] == Head(Tokens, rules[l]) {
          insert := false;
          assert DependsOn(Tokens, rs[i], rs[l]);
          break;
        }
      }
      if !insert {
        break;
      }
      k := k + 1;
    }
    blocked := !insert;
    if insert {
      forall l | 0 <= l < rules.Length && !used[l] && IsKind(Tokens, rs[l], Assignment)
        ensures !DependsOn(Tokens, rs[i], rs[l])
      {
      }
    }
  }

  /** The body of a pass for rule i: place it when it is an unplaced assignment rule that is not blocked. */
  method TryPlace(rules: array<string>, used: array<bool>, result: array<string>, i: nat, j: nat, ghost nAlg: nat)
    returns (j': nat, placed: bool)
    requires result != rules && i < rules.Length
    requires PassInv(Tokens, rules[..], used[..], result[..], j, nAlg)
    modifies used, result
    ensures PassInv(Tokens, rules[..], used[..], result[..], j', nAlg)
    ensures placed ==> j' == j + 1
    ensures !placed ==> j' == j && used[..] == old(used[..])
    ensures !placed && !used[i] && IsKind(Tokens, rules[i], Assignment) ==> Blocked(Tokens, rules[..], used[..], i)
  {
    ghost var rs := rules[..];
    assert WellFormed(Tokens, rs[i]);
    j', placed := j, false;
    if used[i] || Head(Tokens, rules[i]) == "0" || Head(Tokens, rules[i]) == "d(" {
      return;
    }
    var blocked := DependsOnUnplaced(rules, used, i);
    if !blocked {
      ghost var used0, res0 := used[..], result[..];
      PlaceStep(Tokens, rs, used0, res0, j, nAlg, i);
      result[j] := rules[i];
      j' := j + 1;
      placed := true;
      used[i] := true;
      assert result[..] == res0[j := rs[i]];
      assert used[..] == used0[i := true];
    }
  }

  /** One pass of the do-while loop over the assignment rules. */
  method Pass(rules: array<string>, used: array<bool>, result: array<string>, j0: nat, ghost nAlg: nat)
    returns (j: nat, progress: bool)
    requires result != rules
    requires PassInv(Tokens, rules[..], used[..], result[..], j0, nAlg)
    modifies used, result
    ensures PassInv(Tokens, rules[..], used[..], result[..], j, nAlg)
    ensures progress ==> j > j0
    ensures !progress ==> j == j0 && used[..] == old(used[..])
    ensures !progress ==> AllBlockedBelow(Tokens, rules[..], used[..], rules.Length)
  {
    ghost var rs, u0 := rules[..], used[..];
    j := j0;
    progress := false;
    for i := 0 to rules.Length
      invariant rules[..] == rs
      invariant PassInv(Tokens, rs, used[..], result[..], j, nAlg)
      invariant progress ==> j > j0
      invariant !progress ==> j == j0 && used[..] == u0 && AllBlockedBelow(Tokens, rs, u0, i)
    {
      var placed;
      j, placed := TryPlace(rules, used, result, i, j, nAlg);
      if !placed && !progress {
        BlockedBelowStep(Tokens, rs, u0, i);
      }
      progress := progress || placed;
    }
  }

  lemma BlockedBelowStep(tok: Tokenizer, rs: seq<string>, used: seq<bool>, i: nat)
    requires |used| == |rs| && i < |rs| && AllBlockedBelow(tok, rs, used, i)
    requires !used[i] && IsKind(tok, rs[i], Assignment) ==> Blocked(tok, rs, used, i)
    ensures AllBlockedBelow(tok, rs, used, i + 1)
  {
  }

  /** The body of sortRules' first loop for a well-formed rule i: an algebraic rule goes to position j and is marked. */
  method PlaceIfAlgebraic(rules: array<string>, used: array<bool>, result: array<string>, i: nat, j: nat) returns (j': nat)
    requires used.Length == rules.Length == result.Length && result != rules
    requires j <= i < rules.Length && WellFormed(Tokens, rules[i])
    modifies used, result
    ensures rules[..] == old(rules[..])
    ensures IsKind(Tokens, rules[i], Algebraic) ==> j' == j + 1 && result[..j'] == old(result[..j]) + [rules[i]]
                                                    && used[..] == old(used[..])[i := true]
    ensures !IsKind(Tokens, rules[i], Algebraic) ==> j' == j && result[..j'] == old(result[..j]) && used[..] == old(used[..])
  {
    j' := j;
    if Head(Tokens, rules[i]) == "0" {
      result[j] := rules[i];
      used[i] := true;
      j' := j + 1;
    }
  }

  /**
   * The first loop of sortRules: the algebraic rules go first, in input
   * order, and are marked used. It stops at a rule without a first token,
   * where split(" ")[0] throws.
   */
  method PlaceAlgebraic(rules: array<string>, used: array<bool>, result: array<string>) returns (j: nat, ok: bool)
    requires used.Length == rules.Length == result.Length && result != rules
    requires forall k :: 0 <= k < used.Length ==> !used[k]
    modifies used, result
    ensures ok <==> AllWellFormed(Tokens, rules[..])
    ensures ok ==> PassInv(Tokens, rules[..], used[..], result[..], j, j)
  {
    ghost var rs := rules[..];
    var n := rules.Length;
    j := 0;
    for i := 0 to n
      invariant rules[..] == rs
      invariant 0 <= j <= i && AllWellFormed(Tokens, rs[..i])
      invariant result[..j] == Select(Tokens, rs[..i], Algebraic)
      invariant forall k :: 0 <= k < n ==> (used[k] <==> k < i && IsKind(Tokens, rs[k], Algebraic))
    {
      PickNext(rs, i, ClassifyBy(Tokens), Some(Algebraic));
      if !WellFormed(Tokens, rules[i]) {
        return j, false;
      }
      j := PlaceIfAlgebraic(rules, used, result, i, j);
    }
    assert rs[..n] == rs;
    StartPassInv(Tokens, rs, used[..], result[..], j);
    ok := true;
  }

  /** The last loop of sortRules: the rate rules follow, in input order. */
  method PlaceRates(rules: array<string>, result: array<string>, j0: nat) returns (j: nat)
    requires result.Length == rules.Length && result != rules && AllWellFormed(Tokens, rules[..])
    requires j0 + |Select(Tokens, rules[..], Rate)| <= rules.Length
    modifies result
    ensures j == j0 + |Select(Tokens, rules[..], Rate)|
    ensures result[..j0] == old(result[..j0]) && result[j0..j] == Select(Tokens, rules[..], Rate)
  {
    ghost var rs := rules[..];
    var n := rules.Length;
    j := j0;
    for i := 0 to n
      invariant rules[..] == rs
      invariant j == j0 + |Select(Tokens, rs[..i], Rate)| && j <= n
      invariant result[..j0] == old(result[..j0])
      invariant result[j0..j] == Select(Tokens, rs[..i], Rate)
    {
      PickNext(rs, i, ClassifyBy(Tokens), Some(Rate));
      assert WellFormed(Tokens, rs[i]);
      if Head(Tokens, rules[i]) == "d(" {
        PickPrefix(rs, i + 1, ClassifyBy(Tokens), Some(Rate));
        result[j] := rules[i];
        j := j + 1;
      }
    }
    assert rs[..n] == rs;
  }

  /**
   * The passes of sortRules: each pass places what it can; they stop when a
   * pass places nothing or every slot is filled.
   */
  method PlaceAssignments(rules: array<string>, used: array<bool>, result: array<string>, j0: nat, ghost nAlg: nat)
    returns (j: nat)
    requires result != rules
    requires PassInv(Tokens, rules[..], used[..], result[..], j0, nAlg)
    modifies used, result
    ensures PassInv(Tokens, rules[..], used[..], result[..], j, nAlg)
    ensures j == rules.Length || AllBlockedBelow(Tokens, rules[..], used[..], rules.Length)
  {
    var progress;
    j, progress := Pass(rules, used, result, j0, nAlg);
    while progress && j < rules.Length
      invariant PassInv(Tokens, rules[..], used[..], result[..], j, nAlg)
      invariant !progress ==> AllBlockedBelow(Tokens, rules[..], used[..], rules.Length)
      decreases rules.Length - j + (if progress then 1 else 0)
    {
      j, progress := Pass(rules, used, result, j, nAlg);
    }
  }

  /**
   * What the three phases together establish: a full result is a rule order
   * holding every rule once, and a short one leaves a stuck set behind.
   */
  lemma Conclude(tok: Tokenizer, rs: seq<string>, used: seq<bool>, pre: seq<string>, res: seq<string>, j0: int, j: int, nAlg: int)
    requires PassInv(tok, rs, used, pre, j0, nAlg)
    requires j0 == |rs| || AllBlockedBelow(tok, rs, used, |rs|)
    requires j == j0 + |Select(tok, rs, Rate)| <= |rs|
    requires |res| == |rs| && res[..j0] == pre[..j0] && res[j0..j] == Select(tok, rs, Rate)
    ensures j == |rs| ==> IsRuleOrder(tok, rs, res) && multiset(res) == multiset(rs) && forall s :: !Stuck(tok, rs, s)
    ensures j != |rs| ==> exists s :: Stuck(tok, rs, s)
  {
    PassRoom(tok, rs, used, pre, j0, nAlg);
    if j == |rs| {
      assert res[j0..] == res[j0..j];
      CompleteOrder(tok, rs, used, pre, res, j0, nAlg);
      NoStuckSetInRuleOrder(tok, rs, res);
    } else {
      BlockedAreStuck(tok, rs, used);
    }
  }

  /**
   * sortRules: algebraic rules first; then, pass after pass, each assignment
   * rule none of whose later tokens names an unplaced assignment rule's
   * variable; then the rate rules. A rule string without a first token makes
   * split(" ")[0] throw; rules left unplaced make the method throw.
   */
  method SortRules(rules: array<string>) returns (outcome: SortOutcome)
    ensures outcome.MalformedRule? <==> !AllWellFormed(Tokens, rules[..])
    ensures outcome.CycleDetected? <==> AllWellFormed(Tokens, rules[..]) && exists s :: Stuck(Tokens, rules[..], s)
    ensures outcome.Sorted? ==> IsRuleOrder(Tokens, rules[..], outcome.order) && multiset(outcome.order) == multiset(rules[..])
  {
    var result := new string[rules.Length](_ => "");
    var used := new bool[rules.Length](_ => false);
    var j, ok := PlaceAlgebraic(rules, used, result);
    if !ok {
      return MalformedRule;
    }
    ghost var nAlg := j;
    j := PlaceAssignments(rules, used, result, j, nAlg);
    PassRoom(Tokens, rules[..], used[..], result[..], j, nAlg);
    ghost var j0, pre := j, result[..];
    j := PlaceRates(rules, result, j);
    Conclude(Tokens, rules[..], used[..], pre, result[..], j0, j, nAlg);
    if j != rules.Length {
      return CycleDetected;
    }
    return Sorted(result[..]);
  }
}
