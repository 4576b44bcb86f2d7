/**
 * Timing zones stored as difference bound matrices (DBMs). A zone over the
 * timers t0 (the zero timer) .. tn-1 keeps an (n+1) x (n+1) matrix: row 0
 * holds the upper bound of each timer's delay, column 0 the negated lower
 * bound, and the cell (i+1, j+1) the DBM entry (i, j), which bounds tj - ti.
 * INFINITY (the largest 32-bit int) stands for "no bound".
 */
module Zones {
  import opened Wrappers
  import opened ZoneTimers

  const INFINITY: int := 0x7FFF_FFFF

  // ---------------------------------------------------------------------
  // Paths through a DBM, the meaning of an entry derived by canonicalisation

  ghost predicate Square(m: seq<seq<int>>, n: nat)
  {
    |m| == n && forall r :: 0 <= r < n ==> |m[r]| == n
  }

  /** A walk from `a` to `b` of at least one step over the timers 0..n-1. */
  ghost predicate IsPath(n: nat, p: seq<nat>, a: nat, b: nat)
  {
    |p| >= 2 && p[0] == a && p[|p| - 1] == b && forall k :: 0 <= k < |p| ==> p[k] < n
  }

  /** The sum of the entries along a walk. */
  ghost function Weight(m: seq<seq<int>>, n: nat, p: seq<nat>): int
    requires Square(m, n) && forall k :: 0 <= k < |p| ==> p[k] < n
  {
    if |p| < 2 then 0 else Weight(m, n, p[..|p| - 1]) + m[p[|p| - 2]][p[|p| - 1]]
  }

  /** No step of the walk goes through an INFINITY entry. */
  ghost predicate Finite(m: seq<seq<int>>, n: nat, p: seq<nat>)
    requires Square(m, n) && forall k :: 0 <= k < |p| ==> p[k] < n
  {
    forall k :: 0 <= k < |p| - 1 ==> m[p[k]][p[k + 1]] != INFINITY
  }

  /** `v` is the weight of a walk from `a` to `b` that avoids INFINITY entries. */
  ghost predicate Witnessed(m: seq<seq<int>>, n: nat, a: nat, b: nat, v: int)
    requires Square(m, n)
  {
    exists p :: IsPath(n, p, a, b) && Finite(m, n, p) && Weight(m, n, p) == v
  }

  /** The entry is the original one, or the weight of a finite walk in the original matrix. */
  ghost predicate Supported(m: seq<seq<int>>, n: nat, a: nat, b: nat, v: int)
    requires Square(m, n) && a < n && b < n
  {
    v == m[a][b] || Witnessed(m, n, a, b, v)
  }

  /** Every entry of `cur` is at most the one of `m`. */
  ghost predicate Below(cur: seq<seq<int>>, m: seq<seq<int>>, n: nat)
    requires Square(cur, n) && Square(m, n)
  {
    forall a, b {:trigger cur[a][b]} :: 0 <= a < n && 0 <= b < n ==> cur[a][b] <= m[a][b]
  }

  /** Every entry of `cur` is supported by `m`. */
  ghost predicate SupportedBy(cur: seq<seq<int>>, m: seq<seq<int>>, n: nat)
    requires Square(cur, n) && Square(m, n)
  {
    forall a, b {:trigger Supported(m, n, a, b, cur[a][b])} :: 0 <= a < n && 0 <= b < n ==> Supported(m, n, a, b, cur[a][b])
  }

  /** Lowering one entry to a supported value keeps both properties. */
  lemma LowerOne(cur: seq<seq<int>>, m: seq<seq<int>>, n: nat, i: nat, j: nat, v: int)
    requires Square(cur, n) && Square(m, n) && i < n && j < n
    requires Below(cur, m, n) && SupportedBy(cur, m, n)
    requires v <= cur[i][j] && Supported(m, n, i, j, v)
    ensures Square(cur[i := cur[i][j := v]], n)
    ensures Below(cur[i := cur[i][j := v]], m, n) && SupportedBy(cur[i := cur[i][j := v]], m, n)
  {
  }

  /** A single finite entry is a one-step walk. */
  lemma OneStep(m: seq<seq<int>>, n: nat, a: nat, b: nat)
    requires Square(m, n) && a < n && b < n && m[a][b] != INFINITY
    ensures Witnessed(m, n, a, b, m[a][b])
  {
    var p: seq<nat> := [a, b];
    assert p[..1] == [a];
    assert IsPath(n, p, a, b) && Finite(m, n, p) && Weight(m, n, p) == m[a][b];
  }

  /** Joining a walk a..k with a walk k..b gives a walk a..b whose weight is the sum. */
  lemma {:induction false} Join(m: seq<seq<int>>, n: nat, p: seq<nat>, q: seq<nat>, a: nat, k: nat, b: nat)
    requires Square(m, n) && IsPath(n, p, a, k) && IsPath(n, q, k, b)
    requires Finite(m, n, p) && Finite(m, n, q)
    ensures IsPath(n, p + q[1..], a, b) && Finite(m, n, p + q[1..])
    ensures Weight(m, n, p + q[1..]) == Weight(m, n, p) + Weight(m, n, q)
    decreases |q|
  {
    var r := p + q[1..];
    if |q| == 2 {
      assert r == p + [b];
      assert r[..|r| - 1] == p;
      assert q[..1] == [k];
    } else {
      var q' := q[..|q| - 1];
      Join(m, n, p, q', a, k, q[|q| - 2]);
      assert r[..|r| - 1] == p + q'[1..];
      assert q'[..|q'| - 1] == q[..|q| - 2] by {
        assert q[..|q| - 1][..|q| - 2] == q[..|q| - 2];
      }
      assert Weight(m, n, q) == Weight(m, n, q') + m[q[|q| - 2]][b];
      assert forall t :: 0 <= t < |r| - 1 ==> r[t] == (if t < |p| then p[t] else q[t - |p| + 1]);
    }
  }

  /** Two witnessed or original finite entries around `k` witness their sum. */
  lemma Relaxed(m: seq<seq<int>>, n: nat, a: nat, k: nat, b: nat, x: int, y: int)
    requires Square(m, n) && a < n && k < n && b < n
    requires Supported(m, n, a, k, x) && x != INFINITY
    requires Supported(m, n, k, b, y) && y != INFINITY
    ensures Witnessed(m, n, a, b, x + y)
  {
    if x == m[a][k] {
      OneStep(m, n, a, k);
    }
    if y == m[k][b] {
      OneStep(m, n, k, b);
    }
    var p :| IsPath(n, p, a, k) && Finite(m, n, p) && Weight(m, n, p) == x;
    var q :| IsPath(n, q, k, b) && Finite(m, n, q) && Weight(m, n, q) == y;
    Join(m, n, p, q, a, k, b);
  }

  // ---------------------------------------------------------------------
  // The closure computed by recononicalize, round by round

  /** Entry (a, b) relaxed through the pivot k, from the entries as they stand when the round begins. */
  ghost function RelaxedEntry(s: seq<seq<int>>, n: nat, a: nat, k: nat, b: nat): int
    requires Square(s, n) && a < n && k < n && b < n
  {
    if s[a][k] != INFINITY && s[k][b] != INFINITY && s[a][b] > s[a][k] + s[k][b] then s[a][k] + s[k][b] else s[a][b]
  }

  /** The round of the closure for pivot k. */
  ghost function Round(s: seq<seq<int>>, n: nat, k: nat): (e: seq<seq<int>>)
    requires Square(s, n) && k < n
    ensures Square(e, n)
    ensures forall a, b :: 0 <= a < n && 0 <= b < n ==> e[a][b] == RelaxedEntry(s, n, a, k, b)
  {
    seq(n, a requires 0 <= a < n =>
      seq(n, b requires 0 <= a < n && 0 <= b < n => RelaxedEntry(s, n, a, k, b)))
  }

  /** The matrix after the rounds for the pivots 0 .. k-1. */
  ghost function Rounds(m: seq<seq<int>>, n: nat, k: nat): (s: seq<seq<int>>)
    requires Square(m, n) && k <= n
    ensures Square(s, n)
  {
    if k == 0 then m else Round(Rounds(m, n, k - 1), n, k - 1)
  }

  /** The pivot's diagonal entry is 0, and so is every diagonal entry after the round. */
  ghost predicate RoundKeepsDiagonal(s: seq<seq<int>>, n: nat, k: nat)
    requires Square(s, n) && k < n
  {
    s[k][k] == 0 && forall a :: 0 <= a < n ==> Round(s, n, k)[a][a] == 0
  }

  /** Every round of the closure of `m` keeps the diagonal 0. */
  ghost predicate DiagonalStaysZero(m: seq<seq<int>>, n: nat)
    requires Square(m, n)
  {
    forall k {:trigger RoundKeepsDiagonal(Rounds(m, n, k), n, k)} :: 0 <= k < n ==> RoundKeepsDiagonal(Rounds(m, n, k), n, k)
  }

  /** The rounds for pivots below k keep the diagonal 0. */
  ghost predicate DiagonalKeptBelow(m: seq<seq<int>>, n: nat, k: nat)
    requires Square(m, n) && k <= n
  {
    forall c {:trigger RoundKeepsDiagonal(Rounds(m, n, c), n, c)} :: 0 <= c < k ==> RoundKeepsDiagonal(Rounds(m, n, c), n, c)
  }

  /** A round that breaks the diagonal breaks DiagonalStaysZero. */
  lemma DiagonalBreaks(m: seq<seq<int>>, n: nat, k: nat)
    requires Square(m, n) && k < n
    requires !RoundKeepsDiagonal(Rounds(m, n, k), n, k)
    ensures !DiagonalStaysZero(m, n)
  {
  }

  /** DiagonalKeptBelow extends by one round. */
  lemma DiagonalKeptBelowStep(m: seq<seq<int>>, n: nat, k: nat)
    requires Square(m, n) && k < n
    requires DiagonalKeptBelow(m, n, k) && RoundKeepsDiagonal(Rounds(m, n, k), n, k)
    ensures DiagonalKeptBelow(m, n, k + 1)
  {
  }

  /** A round keeps every entry below `m` and supported by `m`. */
  lemma RoundSupported(s: seq<seq<int>>, m: seq<seq<int>>, n: nat, k: nat)
    requires Square(s, n) && Square(m, n) && k < n && Below(s, m, n) && SupportedBy(s, m, n)
    ensures Below(Round(s, n, k), m, n) && SupportedBy(Round(s, n, k), m, n)
  {
    var e := Round(s, n, k);
    forall a, b | 0 <= a < n && 0 <= b < n
      ensures e[a][b] <= m[a][b] && Supported(m, n, a, b, e[a][b])
    {
      assert s[a][b] <= m[a][b] && Supported(m, n, a, b, s[a][b]);
      if s[a][k] != INFINITY && s[k][b] != INFINITY && s[a][b] > s[a][k] + s[k][b] {
        assert Supported(m, n, a, k, s[a][k]) && Supported(m, n, k, b, s[k][b]);
        Relaxed(m, n, a, k, b, s[a][k], s[k][b]);
      }
    }
  }

  /** Every matrix of the closure is below `m` and supported by it. */
  lemma {:induction false} RoundsSupported(m: seq<seq<int>>, n: nat, k: nat)
    requires Square(m, n) && k <= n
    ensures Below(Rounds(m, n, k), m, n) && SupportedBy(Rounds(m, n, k), m, n)
  {
    if k > 0 {
      RoundsSupported(m, n, k - 1);
      RoundsSupportedStep(m, n, k);
    } else {
      forall a, b | 0 <= a < n && 0 <= b < n
        ensures Supported(m, n, a, b, m[a][b])
      {
      }
    }
  }

  lemma RoundsSupportedStep(m: seq<seq<int>>, n: nat, k: nat)
    requires Square(m, n) && 0 < k <= n
    requires Below(Rounds(m, n, k - 1), m, n) && SupportedBy(Rounds(m, n, k - 1), m, n)
    ensures Below(Rounds(m, n, k), m, n) && SupportedBy(Rounds(m, n, k), m, n)
  {
    RoundSupported(Rounds(m, n, k - 1), m, n, k - 1);
  }


  /** The round for pivot k takes the matrix after k rounds to the one after k + 1. */
  lemma RoundsStep(m: seq<seq<int>>, n: nat, k: nat, s: seq<seq<int>>, e: seq<seq<int>>)
    requires Square(m, n) && k < n && s == Rounds(m, n, k) && e == Round(s, n, k)
    ensures e == Rounds(m, n, k + 1)
  {
  }

  /** Keeping the diagonal through every round is DiagonalStaysZero. */
  lemma DiagonalKeptThroughout(m: seq<seq<int>>, n: nat)
    requires Square(m, n) && DiagonalKeptBelow(m, n, n)
    ensures DiagonalStaysZero(m, n)
  {
  }

  /** No sum of two finite entries formed in the round for pivot k reaches INFINITY. */
  ghost predicate SumsBelowInfinity(s: seq<seq<int>>, n: nat, k: nat)
    requires Square(s, n) && k < n
  {
    forall a, b {:trigger s[a][k], s[k][b]} :: 0 <= a < n && 0 <= b < n && s[a][k] != INFINITY && s[k][b] != INFINITY
                   ==> s[a][k] + s[k][b] < INFINITY
  }

  /** No round of the closure of `m` forms a sum that reaches INFINITY (Java's int addition then never overflows). */
  ghost predicate NoSumReachesInfinity(m: seq<seq<int>>, n: nat)
    requires Square(m, n)
  {
    forall k {:trigger SumsBelowInfinity(Rounds(m, n, k), n, k)} :: 0 <= k < n ==> SumsBelowInfinity(Rounds(m, n, k), n, k)
  }

  /** Going through k never beats an entry: finite entries a..k and k..b bound a finite entry a..b by their sum. */
  ghost predicate ClosedThrough(s: seq<seq<int>>, n: nat, k: nat)
    requires Square(s, n) && k < n
  {
    forall a, b {:trigger s[a][k], s[k][b]} :: 0 <= a < n && 0 <= b < n && s[a][k] != INFINITY && s[k][b] != INFINITY
                   ==> s[a][b] != INFINITY && s[a][b] <= s[a][k] + s[k][b]
  }

  /** The canonical form of a DBM: closed through every timer. */
  ghost predicate Closed(s: seq<seq<int>>, n: nat)
    requires Square(s, n)
  {
    forall k :: 0 <= k < n ==> ClosedThrough(s, n, k)
  }

  /**
   * One step of relaxing row i through the pivot k, as the innermost loop of
   * recononicalize takes it: `before` is `cur` with the entries of row i
   * left of column j already relaxed, and `after` relaxes entry (i, j) too.
   */
  lemma RowStep(cur: seq<seq<int>>, before: seq<seq<int>>, after: seq<seq<int>>, n: nat, i: nat, k: nat, j: nat)
    requires Square(cur, n) && Square(before, n) && i < n && k < n && j < n
    requires after == before[i := before[i][j := RelaxedEntry(before, n, i, k, j)]]
    requires forall a :: 0 <= a < n && a != i ==> before[a] == cur[a]
    requires forall c :: j <= c < n ==> before[i][c] == cur[i][c]
    requires cur[k][k] == 0 ==> forall c :: 0 <= c < j ==> before[i][c] == RelaxedEntry(cur, n, i, k, c)
    requires (cur[k][k] == 0 || i == k) && i < j ==> before[i][i] == RelaxedEntry(cur, n, i, k, i)
    requires i < j ==> before[i][i] == 0
    ensures Square(after, n)
    ensures forall a :: 0 <= a < n && a != i ==> after[a] == cur[a]
    ensures forall c :: j < c < n ==> after[i][c] == cur[i][c]
    ensures cur[k][k] == 0 ==> forall c :: 0 <= c <= j ==> after[i][c] == RelaxedEntry(cur, n, i, k, c)
    ensures (cur[k][k] == 0 || i == k) && i <= j ==> after[i][i] == RelaxedEntry(cur, n, i, k, i)
  {
    if i == k && k < j {
      assert before[k][k] == 0;
    }
    assert cur[k][k] == 0 || i == k ==> before[i][k] == cur[i][k];
    assert before[k][j] == cur[k][j];
  }

  /** Row a of a round reads only row a and the pivot's row. */
  lemma RoundRowOnlyReads(s: seq<seq<int>>, t: seq<seq<int>>, n: nat, k: nat, a: nat)
    requires Square(s, n) && Square(t, n) && k < n && a < n
    requires s[a] == t[a] && s[k] == t[k]
    ensures Round(s, n, k)[a] == Round(t, n, k)[a]
  {
    assert forall b :: 0 <= b < n ==> Round(s, n, k)[a][b] == Round(t, n, k)[a][b];
  }

  /** With a zero pivot the round keeps the pivot's row and column. */
  lemma PivotStays(s: seq<seq<int>>, n: nat, k: nat)
    requires Square(s, n) && k < n && s[k][k] == 0
    ensures Round(s, n, k)[k] == s[k]
    ensures forall a :: 0 <= a < n ==> Round(s, n, k)[a][k] == s[a][k]
  {
    var e := Round(s, n, k);
    assert forall b :: 0 <= b < n ==> e[k][b] == s[k][b];
  }

  /** After the round for pivot k the matrix is closed through k. */
  lemma RoundClosesPivot(s: seq<seq<int>>, n: nat, k: nat)
    requires Square(s, n) && k < n && s[k][k] == 0 && SumsBelowInfinity(s, n, k)
    ensures ClosedThrough(Round(s, n, k), n, k)
  {
    PivotStays(s, n, k);
  }

  /** The round for pivot k keeps the matrix closed through another timer c, entry by entry. */
  lemma RoundKeepsClosedAt(s: seq<seq<int>>, n: nat, k: nat, c: nat, a: nat, b: nat)
    requires Square(s, n) && k < n && c < n && a < n && b < n
    requires s[k][k] == 0 && SumsBelowInfinity(s, n, k) && ClosedThrough(s, n, c)
    requires Round(s, n, k)[a][c] != INFINITY && Round(s, n, k)[c][b] != INFINITY
    ensures Round(s, n, k)[a][b] != INFINITY
    ensures Round(s, n, k)[a][b] <= Round(s, n, k)[a][c] + Round(s, n, k)[c][b]
  {
    var e := Round(s, n, k);
    PivotStays(s, n, k);
    var ac := e[a][c] != s[a][c];
    var cb := e[c][b] != s[c][b];
    if !ac && !cb {
      assert s[a][b] != INFINITY && s[a][b] <= s[a][c] + s[c][b];
    } else if ac && !cb {
      // e[a][c] went through k: the walk a..k..c..b is bounded through k..b.
      assert s[k][b] != INFINITY && s[k][b] <= s[k][c] + s[c][b];
      assert e[a][b] <= s[a][k] + s[k][b];
    } else if !ac && cb {
      assert s[a][k] != INFINITY && s[a][k] <= s[a][c] + s[c][k];
      assert e[a][b] <= s[a][k] + s[k][b];
    } else {
      // Both went through k: k..c..k is no shorter than the zero pivot entry.
      assert 0 <= s[k][c] + s[c][k];
      assert e[a][b] <= s[a][k] + s[k][b];
    }
  }

  /** A round keeps every closure through earlier pivots and adds its own pivot. */
  lemma RoundClosed(s: seq<seq<int>>, n: nat, k: nat)
    requires Square(s, n) && k < n && s[k][k] == 0 && SumsBelowInfinity(s, n, k)
    requires forall c :: 0 <= c < k ==> ClosedThrough(s, n, c)
    ensures forall c :: 0 <= c <= k ==> ClosedThrough(Round(s, n, k), n, c)
  {
    RoundClosesPivot(s, n, k);
    forall c | 0 <= c < k
      ensures ClosedThrough(Round(s, n, k), n, c)
    {
      forall a, b | 0 <= a < n && 0 <= b < n && Round(s, n, k)[a][c] != INFINITY && Round(s, n, k)[c][b] != INFINITY
        ensures Round(s, n, k)[a][b] != INFINITY && Round(s, n, k)[a][b] <= Round(s, n, k)[a][c] + Round(s, n, k)[c][b]
      {
        RoundKeepsClosedAt(s, n, k, c, a, b);
      }
    }
  }

  /** After k rounds with zero pivots and no sum reaching INFINITY, the matrix is closed through pivots 0 .. k-1. */
  lemma {:induction false} RoundsClosed(m: seq<seq<int>>, n: nat, k: nat)
    requires Square(m, n) && k <= n
    requires forall c :: 0 <= c < k ==> Rounds(m, n, c)[c][c] == 0 && SumsBelowInfinity(Rounds(m, n, c), n, c)
    ensures forall c :: 0 <= c < k ==> ClosedThrough(Rounds(m, n, k), n, c)
  {
    if k > 0 {
      RoundsClosed(m, n, k - 1);
      RoundClosed(Rounds(m, n, k - 1), n, k - 1);
    }
  }

  /**
   * The closure of a DBM whose rounds keep the diagonal 0 (recononicalize
   * does not throw) and form no sum reaching INFINITY is closed.
   */
  lemma ClosureIsClosed(m: seq<seq<int>>, n: nat)
    requires Square(m, n) && DiagonalStaysZero(m, n) && NoSumReachesInfinity(m, n)
    ensures Closed(Rounds(m, n, n), n)
  {
    forall c | 0 <= c < n
      ensures Rounds(m, n, c)[c][c] == 0 && SumsBelowInfinity(Rounds(m, n, c), n, c)
    {
      assert RoundKeepsDiagonal(Rounds(m, n, c), n, c) && SumsBelowInfinity(Rounds(m, n, c), n, c);
    }
    RoundsClosed(m, n, n);
  }

  /** Closing a closed DBM with a zero diagonal changes nothing: every round leaves it as it is. */
  lemma {:induction false} ClosureIdempotent(s: seq<seq<int>>, n: nat, k: nat)
    requires Square(s, n) && Closed(s, n) && k <= n
    requires forall a :: 0 <= a < n ==> s[a][a] == 0
    ensures Rounds(s, n, k) == s
    ensures k == n ==> DiagonalStaysZero(s, n)
  {
    if k > 0 {
      ClosureIdempotent(s, n, k - 1);
      RoundOfClosed(s, n, k - 1);
    }
    if k == n {
      forall c | 0 <= c < n
        ensures RoundKeepsDiagonal(Rounds(s, n, c), n, c)
      {
        ClosureIdempotent(s, n, c);
        RoundOfClosed(s, n, c);
      }
    }
  }

  /** A round of a closed DBM is the identity. */
  lemma RoundOfClosed(s: seq<seq<int>>, n: nat, k: nat)
    requires Square(s, n) && Closed(s, n) && k < n
    ensures Round(s, n, k) == s
  {
    var e := Round(s, n, k);
    assert ClosedThrough(s, n, k);
    forall a | 0 <= a < n
      ensures e[a] == s[a]
    {
      assert forall b :: 0 <= b < n ==> e[a][b] == s[a][b];
    }
  }

  /** The four-timer DBM of OverflowDoesNotClose. */
  ghost function OverflowExample(): (m: seq<seq<int>>)
    ensures Square(m, 4)
  {
    [[0, INFINITY, INFINITY, INFINITY - 1],
     [5, 0, INFINITY, INFINITY],
     [INFINITY, -10, 0, INFINITY],
     [INFINITY, INFINITY, INFINITY, 0]]
  }

  /** The example's matrix once entry (2, 0) is -5. */
  ghost function OverflowExampleClosed(): (m: seq<seq<int>>)
    ensures Square(m, 4)
  {
    OverflowExample()[2 := [-5, -10, 0, INFINITY]]
  }

  /** Pivot 0 changes nothing: 5 + (INFINITY - 1) is no improvement on INFINITY. */
  lemma OverflowExampleRound0()
    ensures Round(OverflowExample(), 4, 0) == OverflowExample()
  {
    var m := OverflowExample();
    forall a | 0 <= a < 4
      ensures Round(m, 4, 0)[a] == m[a]
    {
      assert forall b :: 0 <= b < 4 ==> Round(m, 4, 0)[a][b] == m[a][b];
    }
  }

  /** Pivot 1 sets entry (2, 0) to -10 + 5. */
  lemma OverflowExampleRound1()
    ensures Round(OverflowExample(), 4, 1) == OverflowExampleClosed()
  {
    var m, m2 := OverflowExample(), OverflowExampleClosed();
    forall a | 0 <= a < 4
      ensures Round(m, 4, 1)[a] == m2[a]
    {
      assert forall b :: 0 <= b < 4 ==> Round(m, 4, 1)[a][b] == m2[a][b];
    }
  }

  /** Pivots 2 and 3 change nothing more. */
  lemma OverflowExampleRound23(k: nat)
    requires k == 2 || k == 3
    ensures Round(OverflowExampleClosed(), 4, k) == OverflowExampleClosed()
  {
    var m2 := OverflowExampleClosed();
    forall a | 0 <= a < 4
      ensures Round(m2, 4, k)[a] == m2[a]
    {
      assert forall b :: 0 <= b < 4 ==> Round(m2, 4, k)[a][b] == m2[a][b];
    }
  }

  /** The example's matrices round by round. */
  lemma OverflowExampleRounds()
    ensures Rounds(OverflowExample(), 4, 0) == OverflowExample() && Rounds(OverflowExample(), 4, 1) == OverflowExample()
    ensures Rounds(OverflowExample(), 4, 2) == OverflowExampleClosed()
    ensures Rounds(OverflowExample(), 4, 3) == OverflowExampleClosed()
    ensures Rounds(OverflowExample(), 4, 4) == OverflowExampleClosed()
  {
    OverflowExampleRound0();
    OverflowExampleRound1();
    OverflowExampleRound23(2);
    OverflowExampleRound23(3);
  }

  /** The round of the example for pivot k keeps the diagonal 0. */
  lemma OverflowExampleKeepsDiagonalAt(k: nat)
    requires k < 4
    ensures RoundKeepsDiagonal(Rounds(OverflowExample(), 4, k), 4, k)
  {
    var m, m2 := OverflowExample(), OverflowExampleClosed();
    OverflowExampleRounds();
    OverflowExampleDiagonals();
    if k == 0 {
      OverflowExampleRound0();
    } else if k == 1 {
      OverflowExampleRound1();
    } else {
      OverflowExampleRound23(k);
    }
  }

  /** The diagonals of the example's matrices are 0. */
  lemma OverflowExampleDiagonals()
    ensures forall a :: 0 <= a < 4 ==> OverflowExample()[a][a] == 0 && OverflowExampleClosed()[a][a] == 0
  {
    var m, m2 := OverflowExample(), OverflowExampleClosed();
    assert m[0][0] == 0 && m[1][1] == 0 && m[2][2] == 0 && m[3][3] == 0;
    assert m2[0][0] == 0 && m2[1][1] == 0 && m2[2][2] == 0 && m2[3][3] == 0;
  }

  /** Every round of the example keeps the diagonal 0. */
  lemma OverflowExampleKeepsDiagonal()
    ensures DiagonalStaysZero(OverflowExample(), 4)
  {
    forall k | 0 <= k < 4
      ensures RoundKeepsDiagonal(Rounds(OverflowExample(), 4, k), 4, k)
    {
      OverflowExampleKeepsDiagonalAt(k);
    }
  }

  /**
   * Without NoSumReachesInfinity the closure need not be closed: in the
   * round for pivot 0 the sum 5 + (INFINITY - 1) exceeds INFINITY, so entry
   * (1, 3) stays INFINITY; the round for pivot 1 then sets (2, 0) to -5, and
   * entry (2, 3) stays INFINITY although (2, 0) and (0, 3) are finite.
   */
  lemma OverflowDoesNotClose()
    ensures DiagonalStaysZero(OverflowExample(), 4)
    ensures !NoSumReachesInfinity(OverflowExample(), 4)
    ensures !Closed(Rounds(OverflowExample(), 4, 4), 4)
  {
    var m, m2 := OverflowExample(), OverflowExampleClosed();
    OverflowExampleRounds();
    OverflowExampleKeepsDiagonal();
    assert !SumsBelowInfinity(Rounds(m, 4, 0), 4, 0) by {
      assert m[1][0] + m[0][3] >= INFINITY;
    }
    assert !ClosedThrough(m2, 4, 0) by {
      assert m2[2][0] != INFINITY && m2[0][3] != INFINITY && m2[2][3] == INFINITY;
    }
  }

  // ---------------------------------------------------------------------
  // The entries of a merged zone

  /** The recorded indices of a merged timer fit DBMs of sizes nA and nB. */
  predicate Fits(t: Triple, nA: nat, nB: nat)
  {
    (IndexIn(t, ThisZone).Some? ==> IndexIn(t, ThisZone).value < nA)
    && (IndexIn(t, OtherZone).Some? ==> IndexIn(t, OtherZone).value < nB)
  }

  /** Zone `z` holds both timers of the pair. */
  predicate BothIn(ti: Triple, tj: Triple, z: Side)
  {
    IndexIn(ti, z).Some? && IndexIn(tj, z).Some?
  }

  /** Two common timers on which the zones' DBMs disagree: IncompatibleZoneException. */
  predicate Clash(A: seq<seq<int>>, B: seq<seq<int>>, ti: Triple, tj: Triple)
    requires Square(A, |A|) && Square(B, |B|) && Fits(ti, |A|, |B|) && Fits(tj, |A|, |B|)
  {
    ti.zone2 != None && tj.zone2 != None && BothIn(ti, tj, ThisZone) && BothIn(ti, tj, OtherZone)
    && A[IndexIn(ti, ThisZone).value][IndexIn(tj, ThisZone).value]
       != B[IndexIn(ti, OtherZone).value][IndexIn(tj, OtherZone).value]
  }

  /**
   * The merged DBM entry for a pair of timers: the entry of a zone holding
   * both (this zone's when both do), INFINITY when no zone holds both.
   */
  function MergedEntry(A: seq<seq<int>>, B: seq<seq<int>>, ti: Triple, tj: Triple): int
    requires Square(A, |A|) && Square(B, |B|) && Fits(ti, |A|, |B|) && Fits(tj, |A|, |B|)
  {
    if BothIn(ti, tj, ThisZone) then A[IndexIn(ti, ThisZone).value][IndexIn(tj, ThisZone).value]
    else if BothIn(ti, tj, OtherZone) then B[IndexIn(ti, OtherZone).value][IndexIn(tj, OtherZone).value]
    else INFINITY
  }

  /** Correctly recorded entries fit the zones' DBMs. */
  lemma IndexedFits(tr: seq<Triple>, a: seq<int>, b: seq<int>)
    requires WellIndexed(tr, a, b)
    ensures forall k :: 0 <= k < |tr| ==> Fits(tr[k], |a|, |b|)
  {
  }

  /**
   * For merged timers named by both zones' timer arrays, the merged entry is
   * the entry of the zone holding both: this zone's when it does, the other
   * zone's when only it does (or when both do and they agree), and INFINITY
   * when the two timers come from different zones only.
   */
  lemma MergedEntryFromZones(A: seq<seq<int>>, B: seq<seq<int>>, a: seq<int>, b: seq<int>, i: nat, j: nat)
    requires StrictlySorted(a) && StrictlySorted(b) && |a| >= 1 && |b| >= 1 && a[0] == ZERO_TIMER && b[0] == ZERO_TIMER
    requires Square(A, |a|) && Square(B, |b|)
    requires i < |MergedTriples(ZERO_TIMER, a, b)| && j < |MergedTriples(ZERO_TIMER, a, b)|
    ensures Fits(MergedTriples(ZERO_TIMER, a, b)[i], |A|, |B|) && Fits(MergedTriples(ZERO_TIMER, a, b)[j], |A|, |B|)
    ensures forall p, q :: 0 <= p < |a| && 0 <= q < |a| && a[p] == MergedTriples(ZERO_TIMER, a, b)[i].timer
                           && a[q] == MergedTriples(ZERO_TIMER, a, b)[j].timer
                           ==> MergedEntry(A, B, MergedTriples(ZERO_TIMER, a, b)[i], MergedTriples(ZERO_TIMER, a, b)[j]) == A[p][q]
    ensures forall p, q :: 0 <= p < |b| && 0 <= q < |b| && b[p] == MergedTriples(ZERO_TIMER, a, b)[i].timer
                           && b[q] == MergedTriples(ZERO_TIMER, a, b)[j].timer
                           && !Clash(A, B, MergedTriples(ZERO_TIMER, a, b)[i], MergedTriples(ZERO_TIMER, a, b)[j])
                           ==> MergedEntry(A, B, MergedTriples(ZERO_TIMER, a, b)[i], MergedTriples(ZERO_TIMER, a, b)[j]) == B[p][q]
    ensures (MergedTriples(ZERO_TIMER, a, b)[i].timer !in a || MergedTriples(ZERO_TIMER, a, b)[j].timer !in a)
            && (MergedTriples(ZERO_TIMER, a, b)[i].timer !in b || MergedTriples(ZERO_TIMER, a, b)[j].timer !in b)
            ==> MergedEntry(A, B, MergedTriples(ZERO_TIMER, a, b)[i], MergedTriples(ZERO_TIMER, a, b)[j]) == INFINITY
  {
    var tr := MergedTriples(ZERO_TIMER, a, b);
    MergedTriplesIndexed(a, b);
    IndexedFits(tr, a, b);
    var ti, tj := tr[i], tr[j];
    InZoneIndex(ti, a, b);
    InZoneIndex(tj, a, b);
  }

  /** A correctly recorded timer held by a zone is recorded there at its unique position. */
  lemma InZoneIndex(t: Triple, a: seq<int>, b: seq<int>)
    requires StrictlySorted(a) && StrictlySorted(b) && WellIndexed([t], a, b) && SharedExactly([t], a, b)
    ensures t.timer in a <==> IndexIn(t, ThisZone).Some?
    ensures t.timer in b <==> IndexIn(t, OtherZone).Some?
    ensures forall p :: 0 <= p < |a| && a[p] == t.timer ==> IndexIn(t, ThisZone) == Some(p)
    ensures forall p :: 0 <= p < |b| && b[p] == t.timer ==> IndexIn(t, OtherZone) == Some(p)
  {
    assert [t][0] == t;
  }

  /** The merged entries of the zones with DBMs A and B and timer arrays a and b. */
  ghost function MergedDbm(A: seq<seq<int>>, B: seq<seq<int>>, a: seq<int>, b: seq<int>): (M: seq<seq<int>>)
    requires ValidTimers(a) && ValidTimers(b) && Square(A, |a|) && Square(B, |b|)
    ensures Square(M, |MergedTriples(ZERO_TIMER, a, b)|)
    ensures forall i, j :: 0 <= i < |M| && 0 <= j < |M| ==>
              Fits(MergedTriples(ZERO_TIMER, a, b)[i], |A|, |B|) && Fits(MergedTriples(ZERO_TIMER, a, b)[j], |A|, |B|)
              && M[i][j] == MergedEntry(A, B, MergedTriples(ZERO_TIMER, a, b)[i], MergedTriples(ZERO_TIMER, a, b)[j])
  {
    var tr := MergedTriples(ZERO_TIMER, a, b);
    MergedTriplesIndexed(a, b);
    IndexedFits(tr, a, b);
    seq(|tr|, i requires 0 <= i < |tr| =>
      seq(|tr|, j requires 0 <= i < |tr| && 0 <= j < |tr| => MergedEntry(A, B, tr[i], tr[j])))
  }

  /** Some pair of common timers on which the two zones disagree. */
  ghost predicate AnyClash(A: seq<seq<int>>, B: seq<seq<int>>, a: seq<int>, b: seq<int>)
    requires ValidTimers(a) && ValidTimers(b) && Square(A, |a|) && Square(B, |b|)
  {
    var tr := MergedTriples(ZERO_TIMER, a, b);
    MergedTriplesIndexed(a, b);
    IndexedFits(tr, a, b);
    exists i, j :: 0 <= i < |tr| && 0 <= j < |tr| && Clash(A, B, tr[i], tr[j])
  }

  lemma AnyClashIff(A: seq<seq<int>>, B: seq<seq<int>>, a: seq<int>, b: seq<int>, tr: seq<Triple>)
    requires ValidTimers(a) && ValidTimers(b) && Square(A, |a|) && Square(B, |b|)
    requires tr == MergedTriples(ZERO_TIMER, a, b) && forall k :: 0 <= k < |tr| ==> Fits(tr[k], |A|, |B|)
    ensures AnyClash(A, B, a, b) <==> exists i, j :: 0 <= i < |tr| && 0 <= j < |tr| && Clash(A, B, tr[i], tr[j])
  {
  }

  /** One row of the loop nest of mergeZones (corrected): entry (i, j) for every j, or a clash. */
  method FillRow(A: seq<seq<int>>, B: seq<seq<int>>, tr: seq<Triple>, mx: array2<int>, i: nat) returns (clash: bool)
    requires Square(A, |A|) && Square(B, |B|) && forall k :: 0 <= k < |tr| ==> Fits(tr[k], |A|, |B|)
    requires i < |tr| && mx.Length0 == |tr| + 1 && mx.Length1 == |tr| + 1
    modifies mx
    ensures clash <==> exists j :: 0 <= j < |tr| && Clash(A, B, tr[i], tr[j])
    ensures !clash ==> forall j :: 0 <= j < |tr| ==> mx[i + 1, j + 1] == MergedEntry(A, B, tr[i], tr[j])
    ensures forall r, c :: 0 <= r < mx.Length0 && 0 <= c < mx.Length1 && (r != i + 1 || c == 0) ==> mx[r, c] == old(mx[r, c])
  {
    for j := 0 to |tr|
      invariant forall j' :: 0 <= j' < j ==> !Clash(A, B, tr[i], tr[j']) && mx[i + 1, j' + 1] == MergedEntry(A, B, tr[i], tr[j'])
      invariant forall r, c :: 0 <= r < mx.Length0 && 0 <= c < mx.Length1 && (r != i + 1 || c == 0) ==> mx[r, c] == old(mx[r, c])
    {
      var ti, tj := tr[i], tr[j];
      if ti.zone2 != None && tj.zone2 != None && BothIn(ti, tj, ThisZone) && BothIn(ti, tj, OtherZone) {
        var v1 := A[IndexIn(ti, ThisZone).value][IndexIn(tj, ThisZone).value];
        var v2 := B[IndexIn(ti, OtherZone).value][IndexIn(tj, OtherZone).value];
        if v1 != v2 {
          return true;
        }
        mx[i + 1, j + 1] := v1;
      } else {
        mx[i + 1, j + 1] := MergedEntry(A, B, ti, tj);
      }
    }
    return false;
  }

  /**
   * The loop nest of mergeZones, corrected to write entry (i, j) with the
   * entry of the zone holding both timers, at their indices there, and
   * INFINITY where no zone does: every entry of the merged DBM, or a clash
   * on common timers.
   */
  method FillMerged(A: seq<seq<int>>, B: seq<seq<int>>, tr: seq<Triple>, mx: array2<int>) returns (clash: bool)
    requires Square(A, |A|) && Square(B, |B|) && forall k :: 0 <= k < |tr| ==> Fits(tr[k], |A|, |B|)
    requires mx.Length0 == |tr| + 1 && mx.Length1 == |tr| + 1
    modifies mx
    ensures clash <==> exists i, j :: 0 <= i < |tr| && 0 <= j < |tr| && Clash(A, B, tr[i], tr[j])
    ensures !clash ==> forall i, j :: 0 <= i < |tr| && 0 <= j < |tr| ==> mx[i + 1, j + 1] == MergedEntry(A, B, tr[i], tr[j])
    ensures forall c :: 0 <= c < mx.Length0 ==> mx[0, c] == old(mx[0, c]) && mx[c, 0] == old(mx[c, 0])
  {
    for i := 0 to |tr|
      invariant forall i', j :: 0 <= i' < i && 0 <= j < |tr| ==> !Clash(A, B, tr[i'], tr[j]) && mx[i' + 1, j + 1] == MergedEntry(A, B, tr[i'], tr[j])
      invariant forall c :: 0 <= c < mx.Length0 ==> mx[0, c] == old(mx[0, c]) && mx[c, 0] == old(mx[c, 0])
    {
      clash := FillRow(A, B, tr, mx, i);
      if clash {
        return;
      }
    }
    return false;
  }

  // ---------------------------------------------------------------------
  // mergeZones as written

  /** getdbm on a DBM given as a value; None where the index is out of range (it throws). */
  function Read(M: seq<seq<int>>, r: nat, c: nat): Option<int>
  {
    if r < |M| && c < |M[r]| then Some(M[r][c]) else None
  }

  /** setdbm on a DBM given as a value. */
  function Written(M: seq<seq<int>>, r: nat, c: nat, v: int): (M': seq<seq<int>>)
    requires Square(M, |M|) && r < |M| && c < |M|
    ensures Square(M', |M|)
  {
    M[r := M[r][c := v]]
  }

  /**
   * The else branch of the loop body of mergeZones as written, for entry
   * (i, j) of a pair that are not both common timers: it picks a zone z and
   * two indices iIndex, jIndex, then sets the merged entry (iIndex, j), not
   * (i, j), to z's entry (iIndex, jIndex). None where an index is out of range.
   */
  function AsWrittenWrite(A: seq<seq<int>>, B: seq<seq<int>>, ti: Triple, tj: Triple): Option<(nat, int)>
  {
    var (z, iIndex, jIndex) :=
      if ti.zone2 != None && ti.zone1 == tj.zone1 then (ti.zone1, ti.index1, tj.index1)
      else if ti.zone2 != None && Some(ti.zone1) == tj.zone2 then (tj.zone1, ti.index1, tj.index2)
      else if tj.zone2 != None && tj.zone1 == ti.zone1 then (tj.zone1, ti.index1, tj.index1)
      else (tj.zone1, ti.index2, tj.index1);
    var v := Read(if z == ThisZone then A else B, iIndex, jIndex);
    if v.Some? then Some((iIndex, v.value)) else None
  }

  /**
   * The loop nest of mergeZones as written, from entry (i, j) on in row-major
   * order, on the merged DBM M: None when it throws (the zones disagree on
   * common timers, or an index is out of range).
   */
  function AsWrittenFrom(A: seq<seq<int>>, B: seq<seq<int>>, tr: seq<Triple>, M: seq<seq<int>>, i: nat, j: nat)
    : Option<seq<seq<int>>>
    requires Square(M, |tr|)
    decreases |tr| - i, |tr| - j
  {
    if i >= |tr| then Some(M)
    else if j >= |tr| then AsWrittenFrom(A, B, tr, M, i + 1, 0)
    else
      var ti, tj := tr[i], tr[j];
      if ti.zone2 != None && tj.zone2 != None then
        var v1, v2 := Read(A, ti.index1, tj.index1), Read(B, ti.index2, tj.index2);
        if v1.None? || v2.None? || v1 != v2 then None
        else AsWrittenFrom(A, B, tr, Written(M, i, j, v1.value), i, j + 1)
      else
        var w := AsWrittenWrite(A, B, ti, tj);
        if w.None? || w.value.0 >= |tr| then None
        else AsWrittenFrom(A, B, tr, Written(M, w.value.0, j, w.value.1), i, j + 1)
  }

  /** mergeZones as written: the merged DBM over mergeTimers as written (zero entry named 0), from all zeros. */
  function MergeZonesAsWritten(A: seq<seq<int>>, B: seq<seq<int>>, a: seq<int>, b: seq<int>): Option<seq<seq<int>>>
    requires |a| >= 1 && |b| >= 1
  {
    var tr := MergedTriples(0, a, b);
    AsWrittenFrom(A, B, tr, seq(|tr|, _ => seq(|tr|, _ => 0)), 0, 0)
  }

  /** The merged triples of the counterexample below, under either name of the zero timer. */
  lemma ExampleTriples(zero: int)
    ensures MergedTriples(zero, [-1, 9], [-1, 1])
            == [Shared(zero, 0, 0), Single(1, OtherZone, 1), Single(9, ThisZone, 1)]
  {
    var a, b := [-1, 9], [-1, 1];
    assert MergeFrom(a, b, 2, 2) == [];
    assert MergeFrom(a, b, 1, 2) == [Single(9, ThisZone, 1)];
    assert MergeFrom(a, b, 1, 1) == [Single(1, OtherZone, 1), Single(9, ThisZone, 1)];
  }

  /** Rows 1 and 2 of the counterexample's loop nest: only entry (1, 0) changes, from the pair (9, zero timer). */
  lemma ExampleLastRows()
    ensures AsWrittenFrom([[0, 5], [-2, 0]], [[0, 7], [-3, 0]],
                          [Shared(0, 0, 0), Single(1, OtherZone, 1), Single(9, ThisZone, 1)],
                          [[0, 7, 5], [0, 0, 0], [0, 0, 0]], 1, 0)
            == Some([[0, 7, 5], [-2, 0, 0], [0, 0, 0]])
  {
    var A, B := [[0, 5], [-2, 0]], [[0, 7], [-3, 0]];
    var tr := [Shared(0, 0, 0), Single(1, OtherZone, 1), Single(9, ThisZone, 1)];
    var Mb: seq<seq<int>> := [[0, 7, 5], [0, 0, 0], [0, 0, 0]];
    var M1: seq<seq<int>> := [[0, 7, 5], [-2, 0, 0], [0, 0, 0]];
    assert M1[0][2 := 5] == M1[0] && M1[0][1 := 7] == M1[0];
    assert Written(M1, 0, 2, 5) == M1 && Written(M1, 0, 1, 7) == M1;
    assert Mb[1][0 := -2] == M1[1];
    assert Written(Mb, 1, 0, -2) == M1;
    assert Mb[0][2 := 5] == Mb[0] && Mb[0][1 := 7] == Mb[0] && Mb[0][0 := 0] == Mb[0];
    assert Written(Mb, 0, 2, 5) == Mb && Written(Mb, 0, 1, 7) == Mb && Written(Mb, 0, 0, 0) == Mb;
    assert AsWrittenFrom(A, B, tr, M1, 2, 3) == Some(M1);
    assert AsWrittenWrite(A, B, tr[2], tr[2]) == Some((0, 5));
    assert AsWrittenFrom(A, B, tr, M1, 2, 2) == Some(M1);
    assert AsWrittenWrite(A, B, tr[2], tr[1]) == Some((0, 7));
    assert AsWrittenFrom(A, B, tr, M1, 2, 1) == Some(M1);
    assert AsWrittenWrite(A, B, tr[2], tr[0]) == Some((1, -2));
    assert AsWrittenFrom(A, B, tr, Mb, 2, 0) == Some(M1);
    assert AsWrittenWrite(A, B, tr[1], tr[2]) == Some((0, 5));
    assert AsWrittenFrom(A, B, tr, Mb, 1, 2) == Some(M1);
    assert AsWrittenWrite(A, B, tr[1], tr[1]) == Some((0, 7));
    assert AsWrittenFrom(A, B, tr, Mb, 1, 1) == Some(M1);
    assert AsWrittenWrite(A, B, tr[1], tr[0]) == Some((0, 0));
  }

  /** Row 0 of the counterexample's loop nest, from the zero matrix. */
  lemma ExampleFirstRow()
    ensures AsWrittenFrom([[0, 5], [-2, 0]], [[0, 7], [-3, 0]],
                          [Shared(0, 0, 0), Single(1, OtherZone, 1), Single(9, ThisZone, 1)],
                          seq(3, _ => seq(3, _ => 0)), 0, 0)
            == AsWrittenFrom([[0, 5], [-2, 0]], [[0, 7], [-3, 0]],
                             [Shared(0, 0, 0), Single(1, OtherZone, 1), Single(9, ThisZone, 1)],
                             [[0, 7, 5], [0, 0, 0], [0, 0, 0]], 1, 0)
  {
    var A, B := [[0, 5], [-2, 0]], [[0, 7], [-3, 0]];
    var tr := [Shared(0, 0, 0), Single(1, OtherZone, 1), Single(9, ThisZone, 1)];
    var row: seq<int> := seq(3, _ => 0);
    assert row == [0, 0, 0];
    var M0: seq<seq<int>> := [[0, 0, 0], [0, 0, 0], [0, 0, 0]];
    assert seq(3, _ => seq(3, _ => 0)) == M0;
    var Ma: seq<seq<int>> := [[0, 7, 0], [0, 0, 0], [0, 0, 0]];
    var Mb: seq<seq<int>> := [[0, 7, 5], [0, 0, 0], [0, 0, 0]];
    assert Ma[0][2 := 5] == Mb[0];
    assert Written(Ma, 0, 2, 5) == Mb;
    assert M0[0][1 := 7] == Ma[0] && M0[0][0 := 0] == M0[0];
    assert Written(M0, 0, 1, 7) == Ma && Written(M0, 0, 0, 0) == M0;
    assert AsWrittenWrite(A, B, tr[0], tr[2]) == Some((0, 5));
    assert AsWrittenFrom(A, B, tr, Ma, 0, 2) == AsWrittenFrom(A, B, tr, Mb, 1, 0);
    assert AsWrittenWrite(A, B, tr[0], tr[1]) == Some((0, 7));
    assert AsWrittenFrom(A, B, tr, M0, 0, 1) == AsWrittenFrom(A, B, tr, Mb, 1, 0);
  }

  /** The corrected merge of the counterexample below: timer 1 keeps -3 and timer 9 keeps -2 against the zero timer. */
  lemma ExampleMergedDbm()
    ensures MergedDbm([[0, 5], [-2, 0]], [[0, 7], [-3, 0]], [-1, 9], [-1, 1])[1][0] == -3
    ensures MergedDbm([[0, 5], [-2, 0]], [[0, 7], [-3, 0]], [-1, 9], [-1, 1])[2][0] == -2
  {
    var a, b := [-1, 9], [-1, 1];
    var A, B := [[0, 5], [-2, 0]], [[0, 7], [-3, 0]];
    ExampleTriples(ZERO_TIMER);
    var tz := MergedTriples(ZERO_TIMER, a, b);
    assert MergedDbm(A, B, a, b)[1][0] == MergedEntry(A, B, tz[1], tz[0]);
    assert MergedDbm(A, B, a, b)[2][0] == MergedEntry(A, B, tz[2], tz[0]);
  }

  /** The counterexample's merge as written: entry (9, zero timer) lands in row 1. */
  lemma ExampleAsWritten()
    ensures MergeZonesAsWritten([[0, 5], [-2, 0]], [[0, 7], [-3, 0]], [-1, 9], [-1, 1])
            == Some([[0, 7, 5], [-2, 0, 0], [0, 0, 0]])
  {
    ExampleTriples(0);
    ExampleFirstRow();
    ExampleLastRows();
  }

  /**
   * A counterexample: this zone has timer 9 (lower-bound entry -2), the
   * other zone timer 1 (lower-bound entry -3). The merged timers are
   * -1, 1, 9. As written, the pair (9, zero timer) is written to row 1, the
   * row of timer 1, and row 2 keeps 0; the corrected merge has -3 in row 1
   * and -2 in row 2.
   */
  lemma MergeZonesAsWrittenMisplaces()
    ensures MergeZonesAsWritten([[0, 5], [-2, 0]], [[0, 7], [-3, 0]], [-1, 9], [-1, 1])
            == Some([[0, 7, 5], [-2, 0, 0], [0, 0, 0]])
    ensures Timers(MergedTriples(ZERO_TIMER, [-1, 9], [-1, 1])) == [-1, 1, 9]
    ensures MergedDbm([[0, 5], [-2, 0]], [[0, 7], [-3, 0]], [-1, 9], [-1, 1])[1][0] == -3
    ensures MergedDbm([[0, 5], [-2, 0]], [[0, 7], [-3, 0]], [-1, 9], [-1, 1])[2][0] == -2
  {
    ExampleAsWritten();
    ExampleTriples(ZERO_TIMER);
    ExampleMergedDbm();
  }

  /**
   * The same two zones, pair by pair: for (timer 1, zero timer) mergeZones
   * as written reads this zone's entry (0, 0), through the index2 of a timer
   * of one zone (0) and the wrong zone, where the other zone holds -3 for
   * the pair; for (timer 1, timer 9), which no zone holds together, it reads
   * this zone's entry (0, 1), 5, where the corrected merge puts INFINITY.
   */
  lemma MergeZonesAsWrittenReadsWrongEntry()
    ensures AsWrittenWrite([[0, 5], [-2, 0]], [[0, 7], [-3, 0]],
                           MergedTriples(0, [-1, 9], [-1, 1])[1], MergedTriples(0, [-1, 9], [-1, 1])[0])
            == Some((0, 0))
    ensures AsWrittenWrite([[0, 5], [-2, 0]], [[0, 7], [-3, 0]],
                           MergedTriples(0, [-1, 9], [-1, 1])[1], MergedTriples(0, [-1, 9], [-1, 1])[2])
            == Some((0, 5))
    ensures MergedDbm([[0, 5], [-2, 0]], [[0, 7], [-3, 0]], [-1, 9], [-1, 1])[1][0] == -3
    ensures MergedDbm([[0, 5], [-2, 0]], [[0, 7], [-3, 0]], [-1, 9], [-1, 1])[1][2] == INFINITY
  {
    var a, b := [-1, 9], [-1, 1];
    var A, B := [[0, 5], [-2, 0]], [[0, 7], [-3, 0]];
    ExampleTriples(0);
    ExampleTriples(ZERO_TIMER);
    ExampleMergedDbm();
    var tz := MergedTriples(ZERO_TIMER, a, b);
    assert MergedDbm(A, B, a, b)[1][2] == MergedEntry(A, B, tz[1], tz[2]);
  }

  // ---------------------------------------------------------------------
  // The constructor's copying loops

  /** The caller's matrix covers the DBM and bounds of `ts`. */
  predicate Covers(m: seq<seq<int>>, ts: seq<int>)
  {
    |m| >= |ts| + 2 && forall r :: 0 <= r < |ts| + 2 ==> |m[r]| >= |ts| + 2
  }

  /** An index map of the constructor: 0 to 0, the others injectively into 1..n-1. */
  predicate IndexMap(idx: seq<nat>, n: nat)
  {
    |idx| == n && n >= 1 && idx[0] == 0
    && (forall i :: 0 <= i < n ==> idx[i] < n)
    && (forall i :: 1 <= i < n ==> idx[i] >= 1)
    && (forall i, i' :: 0 <= i < i' < n ==> idx[i] != idx[i'])
  }

  /** Copies the caller's DBM entry (i, j) to (idx[i], idx[j]); the bound cells stay. */
  method CopyDbm(idx: seq<nat>, m: seq<seq<int>>, mx: array2<int>)
    requires IndexMap(idx, |idx|) && mx.Length0 == |idx| + 1 && mx.Length1 == |idx| + 1
    requires |m| >= |idx| + 1 && forall r :: 0 <= r <= |idx| ==> |m[r]| >= |idx| + 1
    modifies mx
    ensures forall i, j :: 0 <= i < |idx| && 0 <= j < |idx| ==> mx[idx[i] + 1, idx[j] + 1] == m[i + 1][j + 1]
    ensures forall c :: 0 <= c < mx.Length0 ==> mx[0, c] == old(mx[0, c]) && mx[c, 0] == old(mx[c, 0])
  {
    var n := |idx|;
    for i := 0 to n
      invariant forall i', j :: 0 <= i' < i && 0 <= j < n ==> mx[idx[i'] + 1, idx[j] + 1] == m[i' + 1][j + 1]
      invariant forall c :: 0 <= c < mx.Length0 ==> mx[0, c] == old(mx[0, c]) && mx[c, 0] == old(mx[c, 0])
    {
      CopyDbmRow(idx, m, mx, i);
    }
  }

  /** The inner copying loop for the caller's row i: only row idx[i] + 1 changes, and not its column 0. */
  method CopyDbmRow(idx: seq<nat>, m: seq<seq<int>>, mx: array2<int>, i: nat)
    requires IndexMap(idx, |idx|) && mx.Length0 == |idx| + 1 && mx.Length1 == |idx| + 1 && i < |idx|
    requires |m| >= |idx| + 1 && forall r :: 0 <= r <= |idx| ==> |m[r]| >= |idx| + 1
    modifies mx
    ensures forall j :: 0 <= j < |idx| ==> mx[idx[i] + 1, idx[j] + 1] == m[i + 1][j + 1]
    ensures forall r, c :: 0 <= r < mx.Length0 && 0 <= c < mx.Length1 && (r != idx[i] + 1 || c == 0) ==> mx[r, c] == old(mx[r, c])
  {
    for j := 0 to |idx|
      invariant forall j' :: 0 <= j' < j ==> mx[idx[i] + 1, idx[j'] + 1] == m[i + 1][j' + 1]
      invariant forall r, c :: 0 <= r < mx.Length0 && 0 <= c < mx.Length1 && (r != idx[i] + 1 || c == 0) ==> mx[r, c] == old(mx[r, c])
    {
      mx[idx[i] + 1, idx[j] + 1] := m[i + 1][j + 1];
    }
  }

  /**
   * For each non-zero timer i, stores the caller's upper bound in row 0 and
   * the caller's lower-bound cell, negated twice, in column 0 at idx[i];
   * the DBM cells and the zero timer's bound cells stay.
   */
  method CopyBounds(idx: seq<nat>, m: seq<seq<int>>, mx: array2<int>)
    requires IndexMap(idx, |idx|) && mx.Length0 == |idx| + 1 && mx.Length1 == |idx| + 1
    requires |m| >= |idx| + 1 && forall r :: 0 <= r <= |idx| ==> |m[r]| >= |idx| + 1
    modifies mx
    ensures forall i :: 1 <= i < |idx| ==> mx[0, idx[i] + 1] == m[0][i + 1] && mx[idx[i] + 1, 0] == m[i + 1][0]
    ensures forall r, c :: 1 <= r < mx.Length0 && 1 <= c < mx.Length1 ==> mx[r, c] == old(mx[r, c])
    ensures mx[0, 0] == old(mx[0, 0]) && mx[0, 1] == old(mx[0, 1]) && mx[1, 0] == old(mx[1, 0])
  {
    for i := 1 to |idx|
      invariant forall i' :: 1 <= i' < i ==> mx[0, idx[i'] + 1] == m[0][i' + 1] && mx[idx[i'] + 1, 0] == m[i' + 1][0]
      invariant forall r, c :: 1 <= r < mx.Length0 && 1 <= c < mx.Length1 ==> mx[r, c] == old(mx[r, c])
      invariant mx[0, 0] == old(mx[0, 0]) && mx[0, 1] == old(mx[0, 1]) && mx[1, 0] == old(mx[1, 0])
    {
      mx[0, idx[i] + 1] := m[0][i + 1];
      mx[idx[i] + 1, 0] := -1 * (-1 * m[i + 1][0]);
    }
  }

  /** The matrix the constructor fills: _matrix, with each timer's entries at its new index. */
  method DbmOfTimers(ts: seq<int>, m: seq<seq<int>>) returns (mx: array2<int>)
    requires TimerList(ts) && Covers(m, ts)
    ensures fresh(mx) && mx.Length0 == |ts| + 2 && mx.Length1 == |ts| + 2
    ensures forall i, j :: 0 <= i <= |ts| && 0 <= j <= |ts| ==> mx[NewIndexes(ts)[i] + 1, NewIndexes(ts)[j] + 1] == m[i + 1][j + 1]
    ensures forall i :: 1 <= i <= |ts| ==> mx[0, NewIndexes(ts)[i] + 1] == m[0][i + 1] && mx[NewIndexes(ts)[i] + 1, 0] == m[i + 1][0]
    ensures mx[0, 0] == 0 && mx[0, 1] == 0 && mx[1, 0] == 0
  {
    NewIndexesIndexMap(ts);
    var idx := NewIndexes(ts);
    assert |idx| == |ts| + 1;
    mx := DbmArray(idx, m);
  }

  lemma NewIndexesIndexMap(ts: seq<int>)
    requires TimerList(ts)
    ensures IndexMap(NewIndexes(ts), |ts| + 1)
  {
    NewIndexesMap(ts);
  }

  /** The constructor's timer array: the zero timer, then the timers in ascending order. */
  method TimerArray(ts: seq<int>) returns (ta: array<int>)
    requires TimerList(ts)
    ensures fresh(ta) && ta[..] == IndexToTimer(ts) && StrictlySorted(ta[..])
  {
    IndexToTimerSorted(ts);
    ta := ArrayOf(IndexToTimer(ts));
  }

  /** A new matrix, zero where nothing is copied, holding `m` with its timers moved to the places `idx` gives. */
  method DbmArray(idx: seq<nat>, m: seq<seq<int>>) returns (mx: array2<int>)
    requires |idx| >= 1 && IndexMap(idx, |idx|)
    requires |m| >= |idx| + 1 && forall r :: 0 <= r <= |idx| ==> |m[r]| >= |idx| + 1
    ensures fresh(mx) && mx.Length0 == |idx| + 1 && mx.Length1 == |idx| + 1
    ensures forall i, j :: 0 <= i < |idx| && 0 <= j < |idx| ==> mx[idx[i] + 1, idx[j] + 1] == m[i + 1][j + 1]
    ensures forall i :: 1 <= i < |idx| ==> mx[0, idx[i] + 1] == m[0][i + 1] && mx[idx[i] + 1, 0] == m[i + 1][0]
    ensures mx[0, 0] == 0 && mx[0, 1] == 0 && mx[1, 0] == 0
  {
    mx := new int[|idx| + 1, |idx| + 1]((_, _) => 0);
    CopyDbm(idx, m, mx);
    CopyBounds(idx, m, mx);
  }

  /** A new array holding `s`. */
  method ArrayOf(s: seq<int>) returns (a: array<int>)
    ensures fresh(a) && a[..] == s
  {
    a := new int[|s|](k requires 0 <= k < |s| => s[k]);
  }

  // ---------------------------------------------------------------------
  // The loops of mergeTimers

  /** Appending the merge's next entry keeps the prefix a prefix of the whole merge. */
  lemma PrefixStep(pre: seq<Triple>, t: Triple, a: seq<int>, b: seq<int>, x: nat, y: nat, full: seq<Triple>)
    requires x <= |a| && y <= |b| && (x < |a| || y < |b|)
    requires pre + MergeFrom(a, b, x, y) == full && t == MergeFrom(a, b, x, y)[0]
    ensures NextX(a, b, x, y) <= |a| && NextY(a, b, x, y) <= |b|
    ensures (pre + [t]) + MergeFrom(a, b, NextX(a, b, x, y), NextY(a, b, x, y)) == full
  {
    MergeStep(a, b, x, y);
  }

  /** The first loop of mergeTimers: while both arrays have timers left. */
  method MergeCommon(ta: array<int>, tb: array<int>, temp: array<Triple>, ghost full: seq<Triple>)
    returns (x: nat, y: nat, k: nat)
    requires ta.Length >= 1 && tb.Length >= 1 && temp.Length == ta.Length + tb.Length + 1
    requires full == MergedTriples(ZERO_TIMER, ta[..], tb[..]) && temp[0] == full[0]
    modifies temp
    ensures 1 <= x <= ta.Length && 1 <= y <= tb.Length && 1 <= k <= x + y - 1
    ensures x == ta.Length || y == tb.Length
    ensures temp[..k] + MergeFrom(ta[..], tb[..], x, y) == full
  {
    ghost var a, b := ta[..], tb[..];
    x, y, k := 1, 1, 1;
    assert temp[..1] + MergeFrom(a, b, 1, 1) == full;
    while x < ta.Length && y < tb.Length
      invariant 1 <= x <= ta.Length && 1 <= y <= tb.Length && 1 <= k <= x + y - 1
      invariant temp[..k] + MergeFrom(a, b, x, y) == full
      decreases ta.Length - x + tb.Length - y
    {
      var t: Triple, x', y' := Single(ta[x], ThisZone, x), x + 1, y;
      if ta[x] == tb[y] {
        t, x', y' := Shared(ta[x], x, y), x + 1, y + 1;
      } else if ta[x] > tb[y] {
        t, x', y' := Single(tb[y], OtherZone, y), x, y + 1;
      }
      ghost var pre := temp[..k];
      PrefixStep(pre, t, a, b, x, y, full);
      temp[k] := t;
      assert temp[..k + 1] == pre + [t];
      x, y, k := x', y', k + 1;
    }
  }

  /** Stores `t` after the triples `pre` already in `temp`. */
  method PutTriple(temp: array<Triple>, k: nat, t: Triple, ghost pre: seq<Triple>)
    requires k < temp.Length && temp[..k] == pre
    modifies temp
    ensures temp[..k + 1] == pre + [t]
  {
    temp[k] := t;
    assert temp[..k + 1] == temp[..k] + [t];
  }

  /** Once the other array is used up, the merge takes this zone's next timer alone. */
  lemma RestOfThisStep(pre: seq<Triple>, a: seq<int>, b: seq<int>, x: nat, full: seq<Triple>)
    requires x < |a| && pre + MergeFrom(a, b, x, |b|) == full
    ensures (pre + [Single(a[x], ThisZone, x)]) + MergeFrom(a, b, x + 1, |b|) == full
  {
    assert MergeFrom(a, b, x, |b|) == [Single(a[x], ThisZone, x)] + MergeFrom(a, b, x + 1, |b|);
  }

  /** Once this zone's array is used up, the merge takes the other zone's next timer alone. */
  lemma RestOfOtherStep(pre: seq<Triple>, a: seq<int>, b: seq<int>, y: nat, full: seq<Triple>)
    requires y < |b| && pre + MergeFrom(a, b, |a|, y) == full
    ensures (pre + [Single(b[y], OtherZone, y)]) + MergeFrom(a, b, |a|, y + 1) == full
  {
    assert MergeFrom(a, b, |a|, y) == [Single(b[y], OtherZone, y)] + MergeFrom(a, b, |a|, y + 1);
  }

  /** The loop of mergeTimers that copies what is left of this zone's timers. */
  method CopyRestOfThis(ta: array<int>, tb: array<int>, temp: array<Triple>, x0: nat, k0: nat, ghost full: seq<Triple>)
    returns (k: nat)
    requires 1 <= x0 <= ta.Length && 1 <= tb.Length && 1 <= k0 <= x0 + tb.Length - 1
    requires temp.Length == ta.Length + tb.Length + 1
    requires temp[..k0] + MergeFrom(ta[..], tb[..], x0, tb.Length) == full
    modifies temp
    ensures k <= temp.Length && temp[..k] + MergeFrom(ta[..], tb[..], ta.Length, tb.Length) == full
  {
    ghost var a, b := ta[..], tb[..];
    var x, y := x0, tb.Length;
    k := k0;
    while x < ta.Length
      invariant x0 <= x <= ta.Length && 1 <= k <= x + y - 1
      invariant temp[..k] + MergeFrom(a, b, x, y) == full
      decreases ta.Length - x
    {
      ghost var pre := temp[..k];
      RestOfThisStep(pre, a, b, x, full);
      PutTriple(temp, k, Single(ta[x], ThisZone, x), pre);
      k, x := k + 1, x + 1;
    }
  }

  /** The loop of mergeTimers that copies what is left of the other zone's timers. */
  method CopyRestOfOther(ta: array<int>, tb: array<int>, temp: array<Triple>, y0: nat, k0: nat, ghost full: seq<Triple>)
    returns (k: nat)
    requires 1 <= ta.Length && 1 <= y0 <= tb.Length && 1 <= k0 <= ta.Length + y0 - 1
    requires temp.Length == ta.Length + tb.Length + 1
    requires temp[..k0] + MergeFrom(ta[..], tb[..], ta.Length, y0) == full
    modifies temp
    ensures k <= temp.Length && temp[..k] + MergeFrom(ta[..], tb[..], ta.Length, tb.Length) == full
  {
    ghost var a, b := ta[..], tb[..];
    var x, y := ta.Length, y0;
    k := k0;
    while y < tb.Length
      invariant y0 <= y <= tb.Length && 1 <= k <= x + y - 1
      invariant temp[..k] + MergeFrom(a, b, x, y) == full
      decreases tb.Length - y
    {
      ghost var pre := temp[..k];
      RestOfOtherStep(pre, a, b, y, full);
      PutTriple(temp, k, Single(tb[y], OtherZone, y), pre);
      k, y := k + 1, y + 1;
    }
  }

  /** The loops of mergeTimers that copy what is left of either array. */
  method MergeRest(ta: array<int>, tb: array<int>, temp: array<Triple>, x0: nat, y0: nat, k0: nat, ghost full: seq<Triple>)
    returns (k: nat)
    requires 1 <= x0 <= ta.Length && 1 <= y0 <= tb.Length && 1 <= k0 <= x0 + y0 - 1
    requires x0 == ta.Length || y0 == tb.Length
    requires temp.Length == ta.Length + tb.Length + 1
    requires temp[..k0] + MergeFrom(ta[..], tb[..], x0, y0) == full
    modifies temp
    ensures k <= temp.Length && temp[..k] == full
  {
    if x0 < ta.Length {
      k := CopyRestOfThis(ta, tb, temp, x0, k0, full);
    } else {
      k := CopyRestOfOther(ta, tb, temp, y0, k0, full);
    }
    assert MergeFrom(ta[..], tb[..], ta.Length, tb.Length) == [];
    assert temp[..k] + [] == temp[..k];
  }

  // ---------------------------------------------------------------------
  // The zone

  class Zone {
    /** _indexToTimer: the timer of each DBM row/column, the zero timer -1 first. */
    var timers: array<int>
    /** _matrix: the DBM with the bounds row and column added. */
    var matrix: array2<int>

    predicate Shaped()
      reads this
    {
      timers.Length >= 1 && matrix.Length0 == timers.Length + 1 && matrix.Length1 == timers.Length + 1
    }

    /** The representation invariant: sorted timers, the zero timer first. */
    predicate Valid()
      reads this, timers
    {
      Shaped() && timers[0] == -1
      && forall a, b :: 0 <= a < b < timers.Length ==> timers[a] < timers[b]
    }

    function DbmSize(): nat
      reads this
    {
      timers.Length
    }

    /** getdbm / getDBMIndex: DBM entry (i, j) is matrix cell (i+1, j+1). */
    function Dbm(i: nat, j: nat): int
      reads this, matrix
      requires Shaped() && i < DbmSize() && j < DbmSize()
    {
      matrix[i + 1, j + 1]
    }

    /** getUpperBoundbydbmIndex: row 0. */
    function UpperBound(i: nat): int
      reads this, matrix
      requires Shaped() && i < DbmSize()
    {
      matrix[0, i + 1]
    }

    /** getLowerBoundbydbmIndex: column 0, which holds the negated lower bound. */
    function LowerBound(i: nat): int
      reads this, matrix
      requires Shaped() && i < DbmSize()
    {
      matrix[i + 1, 0]
    }

    /** exceedsLowerBoundbydbmIndex: the timer's upper bound is at most DBM entry (0, i). */
    predicate ExceedsLowerBound(i: nat)
      reads this, matrix
      requires Shaped() && i < DbmSize()
    {
      UpperBound(i) <= Dbm(0, i)
    }

    /** The DBM part of the matrix as a value. */
    function DbmSeq(): (m: seq<seq<int>>)
      reads this, matrix
      requires Shaped()
      ensures Square(m, DbmSize())
      ensures forall a, b :: 0 <= a < DbmSize() && 0 <= b < DbmSize() ==> m[a][b] == Dbm(a, b)
    {
      seq(DbmSize(), a reads this, matrix requires Shaped() && 0 <= a < DbmSize() =>
        seq(DbmSize(), b reads this, matrix requires Shaped() && 0 <= a < DbmSize() && 0 <= b < DbmSize() => matrix[a + 1, b + 1]))
    }

    /** setdbm: sets one entry and leaves every other cell alone. */
    method SetDbm(i: nat, j: nat, value: int)
      requires Shaped() && i < DbmSize() && j < DbmSize()
      modifies matrix
      ensures Dbm(i, j) == value
      ensures forall r, c :: 0 <= r < matrix.Length0 && 0 <= c < matrix.Length1 && (r, c) != (i + 1, j + 1)
                             ==> matrix[r, c] == old(matrix[r, c])
    {
      matrix[i + 1, j + 1] := value;
    }

    /** setUpperBoundbydbmIndex: the bound is stored as given, in row 0. */
    method SetUpperBound(i: nat, value: int)
      requires Shaped() && i < DbmSize()
      modifies matrix
      ensures UpperBound(i) == value
      ensures forall r, c :: 0 <= r < matrix.Length0 && 0 <= c < matrix.Length1 && (r, c) != (0, i + 1)
                             ==> matrix[r, c] == old(matrix[r, c])
    {
      matrix[0, i + 1] := value;
    }

    /** setLowerBoundbydbmIndex: the bound is stored negated, in column 0. */
    method SetLowerBound(i: nat, value: int)
      requires Shaped() && i < DbmSize()
      modifies matrix
      ensures LowerBound(i) == -value
      ensures forall r, c :: 0 <= r < matrix.Length0 && 0 <= c < matrix.Length1 && (r, c) != (i + 1, 0)
                             ==> matrix[r, c] == old(matrix[r, c])
    {
      matrix[i + 1, 0] := -1 * value;
    }

    /** The DBM part of the matrix holds the entries of `cur`. */
    ghost predicate Mirrors(cur: seq<seq<int>>)
      reads this, matrix
      requires Shaped() && Square(cur, DbmSize())
    {
      forall a, b :: 0 <= a < DbmSize() && 0 <= b < DbmSize() ==> matrix[a + 1, b + 1] == cur[a][b]
    }

    /** A matrix that mirrors `cur` has `cur` as its DBM. */
    lemma MirroredIsDbm(cur: seq<seq<int>>)
      requires Shaped() && Square(cur, DbmSize()) && Mirrors(cur)
      ensures DbmSeq() == cur
    {
      forall a | 0 <= a < DbmSize()
        ensures DbmSeq()[a] == cur[a]
      {
        assert forall b :: 0 <= b < DbmSize() ==> DbmSeq()[a][b] == cur[a][b];
      }
    }

    /** A matrix mirroring `cur` below and supported by `m` has its DBM entries below and supported by `m`. */
    lemma MirroredBelow(cur: seq<seq<int>>, m: seq<seq<int>>)
      requires Shaped() && Square(cur, DbmSize()) && Square(m, DbmSize()) && Mirrors(cur)
      requires Below(cur, m, DbmSize()) && SupportedBy(cur, m, DbmSize())
      ensures forall a, b :: 0 <= a < DbmSize() && 0 <= b < DbmSize() ==> Dbm(a, b) <= m[a][b]
      ensures forall a, b :: 0 <= a < DbmSize() && 0 <= b < DbmSize() ==> Supported(m, DbmSize(), a, b, Dbm(a, b))
    {
      assert forall a, b :: 0 <= a < DbmSize() && 0 <= b < DbmSize() ==> Dbm(a, b) == cur[a][b];
    }

    /** One step of the innermost loop of recononicalize: relax entry (i, j) through k. */
    method Relax(i: nat, k: nat, j: nat, ghost m: seq<seq<int>>, ghost cur: seq<seq<int>>)
      returns (ghost cur': seq<seq<int>>)
      requires Shaped() && i < DbmSize() && k < DbmSize() && j < DbmSize()
      requires Square(m, DbmSize()) && Square(cur, DbmSize()) && Mirrors(cur)
      requires Below(cur, m, DbmSize()) && SupportedBy(cur, m, DbmSize())
      modifies matrix
      ensures Square(cur', DbmSize()) && Mirrors(cur')
      ensures Below(cur', m, DbmSize()) && SupportedBy(cur', m, DbmSize())
      ensures cur' == cur[i := cur[i][j := RelaxedEntry(cur, DbmSize(), i, k, j)]]
      ensures forall r, c :: 0 <= r < matrix.Length0 && 0 <= c < matrix.Length1 && (r, c) != (i + 1, j + 1)
                             ==> matrix[r, c] == old(matrix[r, c])
    {
      cur' := cur;
      var ik, kj := Dbm(i, k), Dbm(k, j);
      if ik != INFINITY && kj != INFINITY && Dbm(i, j) > ik + kj {
        ghost var n := DbmSize();
        assert ik == cur[i][k] && kj == cur[k][j];
        Relaxed(m, n, i, k, j, ik, kj);
        LowerOne(cur, m, n, i, j, ik + kj);
        cur' := SetMirrored(i, j, ik + kj, cur);
      } else {
        assert cur[i][j := cur[i][j]] == cur[i];
      }
    }

    /** setDbmEntry on a matrix that mirrors `cur`: it then mirrors `cur` with that one entry replaced. */
    method SetMirrored(i: nat, j: nat, value: int, ghost cur: seq<seq<int>>) returns (ghost cur': seq<seq<int>>)
      requires Shaped() && i < DbmSize() && j < DbmSize()
      requires Square(cur, DbmSize()) && Mirrors(cur)
      modifies matrix
      ensures cur' == cur[i := cur[i][j := value]] && Square(cur', DbmSize()) && Mirrors(cur')
      ensures forall r, c :: 0 <= r < matrix.Length0 && 0 <= c < matrix.Length1 && (r, c) != (i + 1, j + 1)
                             ==> matrix[r, c] == old(matrix[r, c])
    {
      cur' := cur[i := cur[i][j := value]];
      SetDbm(i, j, value);
      forall a, b | 0 <= a < DbmSize() && 0 <= b < DbmSize()
        ensures matrix[a + 1, b + 1] == cur'[a][b]
      {
        if a != i {
          assert cur'[a] == cur[a];
        } else if b != j {
          assert cur'[a][b] == cur[a][b];
        }
      }
    }

    /**
     * The innermost loop of recononicalize for row i and pivot k; it stops
     * with `thrown` as soon as the diagonal entry (i, i) is non-zero. With a
     * zero pivot entry (k, k) the row becomes the round's row i.
     */
    method RelaxRow(i: nat, k: nat, ghost m: seq<seq<int>>, ghost cur: seq<seq<int>>)
      returns (thrown: bool, ghost cur': seq<seq<int>>)
      requires Shaped() && i < DbmSize() && k < DbmSize()
      requires Square(m, DbmSize()) && Square(cur, DbmSize()) && Mirrors(cur)
      requires Below(cur, m, DbmSize()) && SupportedBy(cur, m, DbmSize())
      modifies matrix
      ensures Square(cur', DbmSize()) && Mirrors(cur')
      ensures Below(cur', m, DbmSize()) && SupportedBy(cur', m, DbmSize())
      ensures forall r, c :: 0 <= r < matrix.Length0 && 0 <= c < matrix.Length1 && (r != i + 1 || c == 0)
                             ==> matrix[r, c] == old(matrix[r, c])
      ensures thrown <==> Dbm(i, i) != 0
      ensures forall a :: 0 <= a < DbmSize() && a != i ==> cur'[a] == cur[a]
      ensures cur[k][k] == 0 || i == k ==> (thrown <==> RelaxedEntry(cur, DbmSize(), i, k, i) != 0)
      ensures !thrown && cur[k][k] == 0 ==> cur' == cur[i := Round(cur, DbmSize(), k)[i]]
    {
      ghost var n := DbmSize();
      cur' := cur;
      for j := 0 to DbmSize()
        invariant Square(cur', n) && Mirrors(cur')
        invariant Below(cur', m, n) && SupportedBy(cur', m, n)
        invariant forall r, c :: 0 <= r < matrix.Length0 && 0 <= c < matrix.Length1 && (r != i + 1 || c == 0)
                                 ==> matrix[r, c] == old(matrix[r, c])
        invariant i < j ==> Dbm(i, i) == 0
        invariant forall a :: 0 <= a < n && a != i ==> cur'[a] == cur[a]
        invariant forall c :: j <= c < n ==> cur'[i][c] == cur[i][c]
        invariant cur[k][k] == 0 ==> forall c :: 0 <= c < j ==> cur'[i][c] == RelaxedEntry(cur, n, i, k, c)
        invariant (cur[k][k] == 0 || i == k) && i < j ==> cur'[i][i] == RelaxedEntry(cur, n, i, k, i)
      {
        ghost var before := cur';
        cur' := Relax(i, k, j, m, cur');
        RowStep(cur, before, cur', n, i, k, j);
        if i == j && Dbm(i, j) != 0 {
          return true, cur';
        }
      }
      if cur[k][k] == 0 {
        assert cur'[i] == Round(cur, n, k)[i];
        assert cur' == cur[i := Round(cur, n, k)[i]];
      }
      return false, cur';
    }

    /** The middle loop of recononicalize: every row, for pivot k. */
    method RelaxAll(k: nat, ghost m: seq<seq<int>>, ghost cur: seq<seq<int>>)
      returns (thrown: bool, ghost cur': seq<seq<int>>)
      requires Shaped() && k < DbmSize()
      requires Square(m, DbmSize()) && Square(cur, DbmSize()) && Mirrors(cur)
      requires Below(cur, m, DbmSize()) && SupportedBy(cur, m, DbmSize())
      modifies matrix
      ensures Square(cur', DbmSize()) && Mirrors(cur')
      ensures Below(cur', m, DbmSize()) && SupportedBy(cur', m, DbmSize())
      ensures forall c :: 0 <= c < matrix.Length1 ==> matrix[0, c] == old(matrix[0, c])
      ensures forall r :: 0 <= r < matrix.Length0 ==> matrix[r, 0] == old(matrix[r, 0])
      ensures !thrown ==> forall a :: 0 <= a < DbmSize() ==> Dbm(a, a) == 0
      ensures thrown ==> exists a :: 0 <= a < DbmSize() && Dbm(a, a) != 0
      ensures thrown <==> !RoundKeepsDiagonal(cur, DbmSize(), k)
      ensures !thrown ==> cur' == Round(cur, DbmSize(), k)
    {
      ghost var n := DbmSize();
      cur' := cur;
      for i := 0 to DbmSize()
        invariant Square(cur', n) && Mirrors(cur')
        invariant Below(cur', m, n) && SupportedBy(cur', m, n)
        invariant forall c :: 0 <= c < matrix.Length1 ==> matrix[0, c] == old(matrix[0, c])
        invariant forall r :: 0 <= r < matrix.Length0 ==> matrix[r, 0] == old(matrix[r, 0])
        invariant forall a :: 1 <= a <= i ==> matrix[a, a] == 0
        invariant forall a :: i <= a < n ==> cur'[a] == cur[a]
        invariant cur[k][k] == 0 ==> forall a :: 0 <= a < i ==> cur'[a] == Round(cur, n, k)[a]
        invariant cur[k][k] == 0 ==> forall a :: 0 <= a < i ==> Round(cur, n, k)[a][a] == 0
        invariant cur[k][k] != 0 ==> i <= k
      {
        ghost var before := cur';
        if cur[k][k] == 0 {
          PivotStays(cur, n, k);
          RoundRowOnlyReads(before, cur, n, k, i);
        } else {
          assert before[k] == cur[k];
        }
        thrown, cur' := RelaxRow(i, k, m, cur');
        if thrown {
          if cur[k][k] == 0 {
            assert Round(cur, n, k)[i][i] == RelaxedEntry(before, n, i, k, i) != 0;
          }
          return;
        }
      }
      assert cur' == Round(cur, n, k);
      return false, cur';
    }

    /**
     * The outer loop of recononicalize: the rounds for the pivots 0 .. n-1,
     * stopping at the first round that throws. Without an exception the
     * matrix mirrors the closure of `m` round by round.
     */
    method RelaxRounds(ghost m: seq<seq<int>>) returns (thrown: bool, ghost cur: seq<seq<int>>)
      requires Shaped() && m == DbmSeq()
      modifies matrix
      ensures Square(cur, DbmSize()) && Mirrors(cur)
      ensures Below(cur, m, DbmSize()) && SupportedBy(cur, m, DbmSize())
      ensures forall c :: 0 <= c < matrix.Length1 ==> matrix[0, c] == old(matrix[0, c])
      ensures forall r :: 0 <= r < matrix.Length0 ==> matrix[r, 0] == old(matrix[r, 0])
      ensures !thrown ==> forall a :: 0 <= a < DbmSize() ==> Dbm(a, a) == 0
      ensures thrown ==> exists a :: 0 <= a < DbmSize() && Dbm(a, a) != 0
      ensures thrown <==> !DiagonalStaysZero(m, DbmSize())
      ensures !thrown ==> cur == Rounds(m, DbmSize(), DbmSize())
    {
      ghost var n := DbmSize();
      cur := m;
      thrown := false;
      for k := 0 to DbmSize()
        invariant Square(cur, n) && Mirrors(cur)
        invariant forall c :: 0 <= c < matrix.Length1 ==> matrix[0, c] == old(matrix[0, c])
        invariant forall r :: 0 <= r < matrix.Length0 ==> matrix[r, 0] == old(matrix[r, 0])
        invariant k > 0 ==> forall a :: 0 <= a < n ==> Dbm(a, a) == 0
        invariant cur == Rounds(m, n, k)
        invariant DiagonalKeptBelow(m, n, k)
      {
        thrown, cur := RelaxRound(k, m, cur);
        if thrown {
          return;
        }
      }
      RoundsSupported(m, n, n);
      DiagonalKeptThroughout(m, n);
    }

    /** Round `k` of the closure, started from the matrix of the first `k` rounds. */
    method RelaxRound(k: nat, ghost m: seq<seq<int>>, ghost cur: seq<seq<int>>)
      returns (thrown: bool, ghost cur': seq<seq<int>>)
      requires Shaped() && k < DbmSize() && Square(m, DbmSize())
      requires Square(cur, DbmSize()) && Mirrors(cur)
      requires cur == Rounds(m, DbmSize(), k) && DiagonalKeptBelow(m, DbmSize(), k)
      modifies matrix
      ensures Square(cur', DbmSize()) && Mirrors(cur')
      ensures Below(cur', m, DbmSize()) && SupportedBy(cur', m, DbmSize())
      ensures forall c :: 0 <= c < matrix.Length1 ==> matrix[0, c] == old(matrix[0, c])
      ensures forall r :: 0 <= r < matrix.Length0 ==> matrix[r, 0] == old(matrix[r, 0])
      ensures !thrown ==> forall a :: 0 <= a < DbmSize() ==> Dbm(a, a) == 0
      ensures thrown ==> exists a :: 0 <= a < DbmSize() && Dbm(a, a) != 0
      ensures thrown ==> !DiagonalStaysZero(m, DbmSize())
      ensures !thrown ==> cur' == Rounds(m, DbmSize(), k + 1) && DiagonalKeptBelow(m, DbmSize(), k + 1)
    {
      ghost var n := DbmSize();
      RoundsSupported(m, n, k);
      thrown, cur' := RelaxAll(k, m, cur);
      if thrown {
        DiagonalBreaks(m, n, k);
      } else {
        RoundsStep(m, n, k, cur, cur');
        DiagonalKeptBelowStep(m, n, k);
      }
    }

    /**
     * recononicalize: Floyd's shortest-path closure over the DBM, skipping
     * INFINITY entries; `thrown` stands for the DiagonalNonZeroException
     * raised as soon as a diagonal entry is non-zero after a step. Every
     * entry only decreases, and each is its old value or the weight of a
     * path of old finite entries. Without an exception the matrix is the
     * closure round by round, and it is closed unless some sum it formed
     * reached INFINITY.
     */
    method Recanonicalize() returns (thrown: bool)
      requires Shaped()
      modifies matrix
      ensures forall c :: 0 <= c < matrix.Length1 ==> matrix[0, c] == old(matrix[0, c])
      ensures forall r :: 0 <= r < matrix.Length0 ==> matrix[r, 0] == old(matrix[r, 0])
      ensures forall a :: 0 <= a < DbmSize() ==> UpperBound(a) == old(UpperBound(a)) && LowerBound(a) == old(LowerBound(a))
      ensures forall a, b :: 0 <= a < DbmSize() && 0 <= b < DbmSize() ==> Dbm(a, b) <= old(Dbm(a, b))
      ensures forall a, b :: 0 <= a < DbmSize() && 0 <= b < DbmSize()
                             ==> Supported(old(DbmSeq()), DbmSize(), a, b, Dbm(a, b))
      ensures !thrown ==> forall a :: 0 <= a < DbmSize() ==> Dbm(a, a) == 0
      ensures thrown ==> exists a :: 0 <= a < DbmSize() && Dbm(a, a) != 0
      ensures thrown <==> !DiagonalStaysZero(old(DbmSeq()), DbmSize())
      ensures !thrown ==> DbmSeq() == Rounds(old(DbmSeq()), DbmSize(), DbmSize())
      ensures !thrown && NoSumReachesInfinity(old(DbmSeq()), DbmSize()) ==> Closed(DbmSeq(), DbmSize())
    {
      ghost var m := DbmSeq();
      ghost var cur;
      thrown, cur := RelaxRounds(m);
      MirroredIsDbm(cur);
      MirroredBelow(cur, m);
      if !thrown && NoSumReachesInfinity(m, DbmSize()) {
        ClosureIsClosed(m, DbmSize());
      }
    }

    /** advance: DBM row 0 takes the upper bounds; nothing else changes. */
    method Advance()
      requires Shaped()
      modifies matrix
      ensures forall i :: 0 <= i < DbmSize() ==> Dbm(0, i) == UpperBound(i)
      ensures forall r, c :: 0 <= r < matrix.Length0 && 0 <= c < matrix.Length1 && r != 1
                             ==> matrix[r, c] == old(matrix[r, c])
      ensures matrix[1, 0] == old(matrix[1, 0])
    {
      for i := 0 to DbmSize()
        invariant forall c :: 1 <= c <= i ==> matrix[1, c] == matrix[0, c]
        invariant forall r, c :: 0 <= r < matrix.Length0 && 0 <= c < matrix.Length1 && (r != 1 || c == 0 || c > i)
                                 ==> matrix[r, c] == old(matrix[r, c])
      {
        matrix[1, i + 1] := UpperBound(i);
      }
    }

    /** restrict: DBM entry (t, 0) takes the stored lower-bound cell of t; nothing else changes. */
    method Restrict(t: nat)
      requires Shaped() && t < DbmSize()
      modifies matrix
      ensures Dbm(t, 0) == LowerBound(t)
      ensures forall r, c :: 0 <= r < matrix.Length0 && 0 <= c < matrix.Length1 && (r, c) != (t + 1, 1)
                             ==> matrix[r, c] == old(matrix[r, c])
    {
      matrix[t + 1, 1] := LowerBound(t);
    }

    /** The same timers and the same matrix cells. */
    predicate SameAs(other: Zone)
      reads this, timers, matrix, other, other.timers, other.matrix
    {
      timers[..] == other.timers[..]
      && matrix.Length0 == other.matrix.Length0 && matrix.Length1 == other.matrix.Length1
      && forall r, c :: 0 <= r < matrix.Length0 && 0 <= c < matrix.Length1 ==> matrix[r, c] == other.matrix[r, c]
    }

    /** equals(Zone): false for null, otherwise the timers and every matrix cell agree. */
    method Equals(other: Zone?) returns (eq: bool)
      requires Shaped() && (other != null ==> other.Shaped())
      ensures eq <==> other != null && SameAs(other)
    {
      if other == null {
        return false;
      }
      if this == other {
        return true;
      }
      if timers.Length != other.timers.Length {
        return false;
      }
      for t := 0 to timers.Length
        invariant timers[..t] == other.timers[..t]
      {
        if timers[t] != other.timers[t] {
          return false;
        }
      }
      assert timers[..] == other.timers[..] by {
        assert timers[..timers.Length] == timers[..] && other.timers[..other.timers.Length] == other.timers[..];
      }
      for r := 0 to matrix.Length0
        invariant forall r', c :: 0 <= r' < r && 0 <= c < matrix.Length1 ==> matrix[r', c] == other.matrix[r', c]
      {
        for c := 0 to matrix.Length1
          invariant forall r', c' :: 0 <= r' < r && 0 <= c' < matrix.Length1 ==> matrix[r', c'] == other.matrix[r', c']
          invariant forall c' :: 0 <= c' < c ==> matrix[r, c'] == other.matrix[r, c']
        {
          if matrix[r, c] != other.matrix[r, c] {
            return false;
          }
        }
      }
      return true;
    }

    /** clone: a new zone with its own copies of the timers and the matrix. */
    method Clone() returns (z: Zone)
      requires Shaped()
      ensures fresh(z) && fresh(z.timers) && fresh(z.matrix)
      ensures z.Shaped() && z.SameAs(this)
    {
      var m := new int[matrix.Length0, matrix.Length1];
      for r := 0 to matrix.Length0
        invariant forall r', c :: 0 <= r' < r && 0 <= c < matrix.Length1 ==> m[r', c] == matrix[r', c]
      {
        for c := 0 to matrix.Length1
          invariant forall r', c' :: 0 <= r' < r && 0 <= c' < matrix.Length1 ==> m[r', c'] == matrix[r', c']
          invariant forall c' :: 0 <= c' < c ==> m[r, c'] == matrix[r, c']
        {
          m[r, c] := matrix[r, c];
        }
      }
      var ts := new int[timers.Length](k reads this, timers requires 0 <= k < timers.Length => timers[k]);
      z := new Zone.FromParts(ts, m);
    }

    /**
     * Zone(int[] timers, int[][] matrix) up to its final recononicalize: the
     * timers sorted behind the zero timer, the caller's DBM entry (i, j)
     * copied to (newIndex(i), newIndex(j)), and each non-zero timer's upper
     * bound (caller's row 0) and lower bound (caller's column 0, stored
     * negated both there and here) moved to its new index. The zero timer's
     * bound cells keep the initial 0.
     */
    constructor Init(ts: seq<int>, m: seq<seq<int>>)
      requires TimerList(ts)
      requires Covers(m, ts)
      ensures fresh(timers) && fresh(matrix) && Valid()
      ensures timers[..] == IndexToTimer(ts)
      ensures forall i, j :: 0 <= i <= |ts| && 0 <= j <= |ts| ==> Dbm(NewIndexes(ts)[i], NewIndexes(ts)[j]) == m[i + 1][j + 1]
      ensures forall i :: 1 <= i <= |ts| ==> UpperBound(NewIndexes(ts)[i]) == m[0][i + 1] && LowerBound(NewIndexes(ts)[i]) == m[i + 1][0]
      ensures matrix[0, 0] == 0 && matrix[0, 1] == 0 && matrix[1, 0] == 0
    {
      var ta := TimerArray(ts);
      var mx := DbmOfTimers(ts, m);
      timers := ta;
      matrix := mx;
    }

    /** getUpperBoundbyTransitionIndex: the bound at the matrix column binarySearch(timer) + 1; a negative column throws. */
    function UpperBoundOf(timer: int): (r: Option<int>)
      reads this, timers, matrix
      requires Valid()
      ensures timer in timers[..] ==> r == Some(UpperBound(BinarySearch(timers[..], timer)))
      ensures timer !in timers[..] && timer > ZERO_TIMER ==> r == None
      ensures timer < ZERO_TIMER ==> r == Some(matrix[0, 0])
    {
      var col := BinarySearch(timers[..], timer) + 1;
      if col < 0 then None else Some(matrix[0, col])
    }

    /** getLowerBoundbyTransitionIndex: the cell at row binarySearch(timer) + 1 of column 0; a negative row throws. */
    function LowerBoundOf(timer: int): (r: Option<int>)
      reads this, timers, matrix
      requires Valid()
      ensures timer in timers[..] ==> r == Some(LowerBound(BinarySearch(timers[..], timer)))
      ensures timer !in timers[..] && timer > ZERO_TIMER ==> r == None
      ensures timer < ZERO_TIMER ==> r == Some(matrix[0, 0])
    {
      var row := BinarySearch(timers[..], timer) + 1;
      if row < 0 then None else Some(matrix[row, 0])
    }

    /** exceedsLowerBoundbyTransitionIndex: exceedsLowerBoundbydbmIndex at binarySearch(timer). */
    function ExceedsLowerBoundOf(timer: int): (r: Option<bool>)
      reads this, timers, matrix
      requires Valid()
      ensures timer in timers[..] ==> r == Some(ExceedsLowerBound(BinarySearch(timers[..], timer)))
      ensures timer !in timers[..] && timer > ZERO_TIMER ==> r == None
    {
      var col := BinarySearch(timers[..], timer) + 1;
      if col < 0 then None else Some(matrix[0, col] <= matrix[1, col])
    }

    /**
     * mergeTimers: walks both timer arrays past their zero timers with two
     * indices, appending a common timer once, otherwise the smaller one,
     * then what is left of either array, behind the entry for the zero timer.
     */
    method MergeTimers(other: Zone) returns (tr: seq<Triple>)
      requires Shaped() && other.Shaped()
      ensures tr == MergedTriples(ZERO_TIMER, timers[..], other.timers[..])
    {
      var temp := new Triple[timers.Length + other.timers.Length + 1](_ => Shared(ZERO_TIMER, 0, 0));
      temp[0] := Shared(ZERO_TIMER, 0, 0);
      ghost var full := MergedTriples(ZERO_TIMER, timers[..], other.timers[..]);
      var x, y, k := MergeCommon(timers, other.timers, temp, full);
      k := MergeRest(timers, other.timers, temp, x, y, k, full);
      tr := temp[..k];
    }

    /**
     * mergeZones, corrected: the merged timers, and for each pair of them
     * the entry of a zone holding both (INFINITY when none does), or
     * Incompatible (IncompatibleZoneException) when the zones disagree on a
     * pair of common timers. The bounds row and column stay 0.
     */
    method MergeZones(other: Zone) returns (r: Merge)
      requires Valid() && other.Valid()
      ensures r.Incompatible? <==> AnyClash(DbmSeq(), other.DbmSeq(), timers[..], other.timers[..])
      ensures r.Merged? ==> fresh(r.zone) && fresh(r.zone.timers) && fresh(r.zone.matrix) && r.zone.Valid()
      ensures r.Merged? ==> r.zone.timers[..] == Timers(MergedTriples(ZERO_TIMER, timers[..], other.timers[..]))
      ensures r.Merged? ==> forall i, j :: 0 <= i < r.zone.DbmSize() && 0 <= j < r.zone.DbmSize()
                                          ==> r.zone.Dbm(i, j) == MergedDbm(DbmSeq(), other.DbmSeq(), timers[..], other.timers[..])[i][j]
      ensures r.Merged? ==> forall c :: 0 <= c < r.zone.matrix.Length0 ==> r.zone.matrix[0, c] == 0 && r.zone.matrix[c, 0] == 0
    {
      var tr := MergeTimers(other);
      r := BuildMerge(DbmSeq(), other.DbmSeq(), timers[..], other.timers[..], tr);
    }

    /** The private no-argument constructor followed by direct assignment of the fields. */
    constructor FromParts(ts: array<int>, m: array2<int>)
      ensures timers == ts && matrix == m
    {
      timers := ts;
      matrix := m;
    }
  }

  // ---------------------------------------------------------------------
  // Building a zone

  /** How mergeZones ends: the merged zone, or IncompatibleZoneException. */
  datatype Merge = Merged(zone: Zone) | Incompatible

  /**
   * The body of mergeZones after mergeTimers, on the zones' DBMs A and B and
   * timer arrays a and b: the merged zone's arrays, filled by the loop nest.
   */
  method BuildMerge(A: seq<seq<int>>, B: seq<seq<int>>, a: seq<int>, b: seq<int>, tr: seq<Triple>) returns (r: Merge)
    requires ValidTimers(a) && ValidTimers(b) && Square(A, |a|) && Square(B, |b|)
    requires tr == MergedTriples(ZERO_TIMER, a, b)
    ensures r.Incompatible? <==> AnyClash(A, B, a, b)
    ensures r.Merged? ==> fresh(r.zone) && fresh(r.zone.timers) && fresh(r.zone.matrix) && r.zone.Valid()
    ensures r.Merged? ==> r.zone.timers[..] == Timers(tr)
    ensures r.Merged? ==> forall i, j :: 0 <= i < |tr| && 0 <= j < |tr| ==> r.zone.Dbm(i, j) == MergedDbm(A, B, a, b)[i][j]
    ensures r.Merged? ==> forall c :: 0 <= c < r.zone.matrix.Length0 ==> r.zone.matrix[0, c] == 0 && r.zone.matrix[c, 0] == 0
  {
    MergedTriplesIndexed(a, b);
    IndexedFits(tr, a, b);
    MergedTimersValid(a, b);
    var ta := ArrayOf(Timers(tr));
    var mx := new int[|tr| + 1, |tr| + 1]((_, _) => 0);
    var clash := FillMerged(A, B, tr, mx);
    AnyClashIff(A, B, a, b, tr);
    if clash {
      return Incompatible;
    }
    ghost var M := MergedDbm(A, B, a, b);
    forall i, j | 0 <= i < |tr| && 0 <= j < |tr|
      ensures mx[i + 1, j + 1] == M[i][j]
    {
    }
    var z := new Zone.FromParts(ta, mx);
    return Merged(z);
  }

  /** How Zone(int[], int[][]) ends: a zone, or one of the two exceptions it can throw. */
  datatype Construction = Built(zone: Zone) | IndexOutOfBounds | DiagonalNonZero

  /**
   * Zone(int[] timers, int[][] matrix), with the zero timer added also when
   * there are no other timers: the copied zone, closed by recononicalize,
   * or DiagonalNonZero when the closure finds a non-zero diagonal entry.
   * The bounds are the caller's, moved to the timers' new indices, and no
   * DBM entry exceeds the caller's. `pre` is the caller's DBM with its
   * timers moved to their new indices, the matrix recononicalize starts
   * from: the zone's DBM is its closure, closed when no sum reaches
   * INFINITY.
   */
  method Construct(ts: seq<int>, m: seq<seq<int>>) returns (r: Construction, ghost pre: seq<seq<int>>)
    requires TimerList(ts) && Covers(m, ts)
    ensures Square(pre, |ts| + 1)
    ensures forall i, j :: 0 <= i <= |ts| && 0 <= j <= |ts|
                           ==> pre[NewIndexes(ts)[i]][NewIndexes(ts)[j]] == m[i + 1][j + 1]
    ensures r != IndexOutOfBounds
    ensures r.DiagonalNonZero? <==> !DiagonalStaysZero(pre, |ts| + 1)
    ensures r.Built? ==> r.zone.Shaped() && r.zone.DbmSeq() == Rounds(pre, |ts| + 1, |ts| + 1)
    ensures r.Built? && NoSumReachesInfinity(pre, |ts| + 1) ==> Closed(r.zone.DbmSeq(), |ts| + 1)
    ensures r.Built? ==> fresh(r.zone) && r.zone.Valid() && r.zone.timers[..] == IndexToTimer(ts)
    ensures r.Built? ==> forall a :: 0 <= a <= |ts| ==> r.zone.Dbm(a, a) == 0
    ensures r.Built? ==> forall i, j :: 0 <= i <= |ts| && 0 <= j <= |ts|
                                        ==> r.zone.Dbm(NewIndexes(ts)[i], NewIndexes(ts)[j]) <= m[i + 1][j + 1]
    ensures r.Built? ==> forall i :: 1 <= i <= |ts| ==> r.zone.UpperBound(NewIndexes(ts)[i]) == m[0][i + 1]
                                                        && r.zone.LowerBound(NewIndexes(ts)[i]) == m[i + 1][0]
  {
    var z := new Zone.Init(ts, m);
    pre := z.DbmSeq();
    var thrown := z.Recanonicalize();
    r := if thrown then DiagonalNonZero else Built(z);
  }

  /**
   * Zone(int[] timers, int[][] matrix) as written: it reads the first sorted
   * timer before adding the zero timer, so an empty timer array throws,
   * although the zero timer alone is a documented input.
   */
  method ConstructAsWritten(ts: seq<int>, m: seq<seq<int>>) returns (r: Construction)
    requires TimerList(ts) && Covers(m, ts)
    ensures r == IndexOutOfBounds <==> |ts| == 0
    ensures r.Built? ==> fresh(r.zone) && r.zone.Valid() && r.zone.timers[..] == IndexToTimer(ts)
  {
    if |ts| == 0 {
      return IndexOutOfBounds;
    }
    ghost var pre;
    r, pre := Construct(ts, m);
  }

  /**
   * After construction, looking a timer up by its transition index finds the
   * bounds the caller gave for it.
   */
  lemma BoundsByTransition(z: Zone, ts: seq<int>, m: seq<seq<int>>, i: nat)
    requires TimerList(ts) && Covers(m, ts) && 1 <= i <= |ts|
    requires z.Valid() && z.timers[..] == IndexToTimer(ts)
    requires z.UpperBound(NewIndexes(ts)[i]) == m[0][i + 1] && z.LowerBound(NewIndexes(ts)[i]) == m[i + 1][0]
    ensures z.UpperBoundOf(ts[i - 1]) == Some(m[0][i + 1])
    ensures z.LowerBoundOf(ts[i - 1]) == Some(m[i + 1][0])
  {
    var sorted := IndexToTimer(ts);
    var p := NewIndexes(ts)[i];
    assert sorted[p] == ts[i - 1];
    SearchFinds(sorted, p);
  }
}
