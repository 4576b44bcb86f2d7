/**
 * GeneNet's discretisation of experimental data: per-column thresholds and the
 * level assigned to each (experiment, row, column) sample.
 */
module Encodings {
  import opened Wrappers

  /**
   * The level of `data` against the thresholds `d`, scanning from index `i`:
   * the first `i >= 1` with `data <= d[i]` gives `i - 1`; none gives `numBins - 1`.
   */
  function LevelFrom(d: seq<real>, data: real, numBins: int, i: nat): int
    decreases |d| - i
  {
    if i >= |d| then numBins - 1
    else if data <= d[i] then i - 1
    else LevelFrom(d, data, numBins, i + 1)
  }

  function Level(d: seq<real>, data: real, numBins: int): int
  {
    LevelFrom(d, data, numBins, 1)
  }

  lemma {:induction false} LevelFromCharacterised(d: seq<real>, data: real, numBins: int, i: nat)
    requires 1 <= i
    ensures var l := LevelFrom(d, data, numBins, i);
      (exists k :: i <= k < |d| && data <= d[k] && l == k - 1 && (forall k' :: i <= k' < k ==> data > d[k']))
      || ((forall k :: i <= k < |d| ==> data > d[k]) && l == numBins - 1)
    decreases |d| - i
  {
    if i < |d| && !(data <= d[i]) {
      LevelFromCharacterised(d, data, numBins, i + 1);
    }
  }

  /**
   * The level is `i - 1` for the smallest `i >= 1` whose threshold is at least
   * `data`, and lies in 0..|d|-2 in that case; with no such threshold it is
   * `numBins - 1`.
   */
  lemma LevelIsFirstThreshold(d: seq<real>, data: real, numBins: int)
    ensures var l := Level(d, data, numBins);
      (exists k :: 1 <= k < |d| && data <= d[k] && l == k - 1 && (forall k' :: 1 <= k' < k ==> data > d[k']))
      || ((forall k :: 1 <= k < |d| ==> data > d[k]) && l == numBins - 1)
    ensures (exists k :: 1 <= k < |d| && data <= d[k]) ==> 0 <= Level(d, data, numBins) <= |d| - 2
  {
    LevelFromCharacterised(d, data, numBins, 1);
  }

  /** `s` extended with `fill` up to length `n` (unchanged when already that long). */
  function PadTo<T>(s: seq<T>, n: nat, fill: T): (r: seq<T>)
    ensures |r| == if |s| < n then n else |s|
    ensures r[..|s|] == s
    ensures forall k :: |s| <= k < |r| ==> r[k] == fill
  {
    if |s| < n then s + seq(n - |s|, _ => fill) else s
  }

  /** One padding loop of addLevelAssignment: append `fill` while the list is shorter than `n`. */
  method Pad<T>(s: seq<T>, n: nat, fill: T) returns (r: seq<T>)
    ensures r == PadTo(s, n, fill)
  {
    r := s;
    while |r| < n
      invariant r == s + seq(|r| - |s|, _ => fill)
      invariant |s| <= |r| <= if |s| < n then n else |s|
      decreases n - |r|
    {
      r := r + [fill];
    }
  }

  /** The nested lists after the three padding loops for cell (e, r, c). */
  function Grown(la: seq<seq<seq<int>>>, e: nat, r: nat, c: nat): (g: seq<seq<seq<int>>>)
    ensures e < |g| && r < |g[e]| && c < |g[e][r]|
  {
    var l1 := PadTo(la, e + 1, []);
    var l2 := PadTo(l1[e], r + 1, []);
    var l3 := PadTo(l2[r], c + 1, 0);
    l1[e := l2[r := l3]]
  }

  function SetCell(g: seq<seq<seq<int>>>, e: nat, r: nat, c: nat, v: int): seq<seq<seq<int>>>
    requires e < |g| && r < |g[e]| && c < |g[e][r]|
  {
    g[e := g[e][r := g[e][r][c := v]]]
  }

  predicate HasCell(la: seq<seq<seq<int>>>, i: nat, j: nat, k: nat)
  {
    i < |la| && j < |la[i]| && k < |la[i][j]|
  }

  /**
   * Growing for cell (e, r, c) keeps every cell that existed; a cell that is new
   * holds the padding value 0; the target cell exists afterwards.
   */
  lemma GrownKeepsCells(la: seq<seq<seq<int>>>, e: nat, r: nat, c: nat)
    ensures HasCell(Grown(la, e, r, c), e, r, c)
    ensures |Grown(la, e, r, c)| == if |la| <= e then e + 1 else |la|
    ensures forall i: nat, j: nat, k: nat :: HasCell(la, i, j, k) ==>
              HasCell(Grown(la, e, r, c), i, j, k) && Grown(la, e, r, c)[i][j][k] == la[i][j][k]
    ensures forall i: nat, j: nat, k: nat :: HasCell(Grown(la, e, r, c), i, j, k) && !HasCell(la, i, j, k) ==>
              Grown(la, e, r, c)[i][j][k] == 0
  {
    var g := Grown(la, e, r, c);
    var l1 := PadTo(la, e + 1, []);
    var l2 := PadTo(l1[e], r + 1, []);
    var l3 := PadTo(l2[r], c + 1, 0);
    assert g == l1[e := l2[r := l3]];
    forall i: nat, j: nat, k: nat | HasCell(g, i, j, k)
      ensures HasCell(la, i, j, k) ==> g[i][j][k] == la[i][j][k]
      ensures !HasCell(la, i, j, k) ==> g[i][j][k] == 0
    {
      if i == e && j == r {
        assert g[i][j] == l3;
        if i < |la| && j < |la[i]| {
          assert l1[e] == la[e] && l2[r] == la[e][r];
        }
      } else if i == e {
        assert g[i][j] == l2[j];
        if i < |la| {
          assert l1[e] == la[e];
        }
      } else {
        assert g[i] == l1[i];
      }
    }
  }

  class Encodings {
    var numBins: int
    var discreteSpecies: map<int, seq<real>>
    var levelAssignments: seq<seq<seq<int>>>

    /** Encodings(): three bins, no thresholds, no assignments. */
    constructor ()
      ensures numBins == 3 && discreteSpecies == map[] && levelAssignments == []
    {
      numBins := 3;
      discreteSpecies := map[];
      levelAssignments := [];
    }

    /** Encodings(bin): `bin` bins, no thresholds, no assignments. */
    constructor WithBins(bin: int)
      ensures numBins == bin && discreteSpecies == map[] && levelAssignments == []
    {
      numBins := bin;
      discreteSpecies := map[];
      levelAssignments := [];
    }

    /** addDiscreteSpecies: replaces the thresholds of column `col`. */
    method AddDiscreteSpecies(col: int, values: seq<real>)
      modifies this
      ensures discreteSpecies == old(discreteSpecies)[col := values]
      ensures numBins == old(numBins) && levelAssignments == old(levelAssignments)
    {
      discreteSpecies := discreteSpecies[col := values];
    }

    /** size(): the number of experiments. */
    function Size(): nat
      reads this
    {
      |levelAssignments|
    }

    /**
     * getLevelAssignment: `None` when the column has no thresholds (the lookup
     * yields null and the loop dereferences it).
     */
    method GetLevelAssignment(col: int, data: real) returns (r: Option<int>)
      ensures col !in discreteSpecies ==> r == None
      ensures col in discreteSpecies ==> r == Some(Level(discreteSpecies[col], data, numBins))
    {
      if col !in discreteSpecies {
        return None;
      }
      var discrete := discreteSpecies[col];
      var i := 1;
      while i < |discrete|
        invariant 1 <= i
        invariant LevelFrom(discrete, data, numBins, i) == Level(discrete, data, numBins)
        decreases |discrete| - i
      {
        if data <= discrete[i] {
          return Some(i - 1);
        }
        i := i + 1;
      }
      return Some(numBins - 1);
    }

    /**
     * addLevelAssignment: grows the nested lists until cell
     * [experiment][row][col] exists, then stores the level of `data` there.
     * `ok` is false when the column has no thresholds: the lists are grown but
     * nothing is stored.
     */
    method AddLevelAssignment(experiment: nat, row: nat, col: nat, data: real) returns (ok: bool)
      modifies this
      ensures ok == (col in discreteSpecies)
      ensures numBins == old(numBins) && discreteSpecies == old(discreteSpecies)
      ensures !ok ==> levelAssignments == Grown(old(levelAssignments), experiment, row, col)
      ensures ok ==> levelAssignments == SetCell(Grown(old(levelAssignments), experiment, row, col),
                                                 experiment, row, col, Level(discreteSpecies[col], data, numBins))
      ensures Size() == if old(Size()) <= experiment then experiment + 1 else old(Size())
    {
      ghost var la0 := levelAssignments;
      levelAssignments := Pad(levelAssignments, experiment + 1, []);
      var rows := Pad(levelAssignments[experiment], row + 1, []);
      var cells := Pad(rows[row], col + 1, 0);
      levelAssignments := levelAssignments[experiment := rows[row := cells]];
      assert levelAssignments == Grown(la0, experiment, row, col);
      var level := GetLevelAssignment(col, data);
      if level.None? {
        return false;
      }
      levelAssignments := levelAssignments[experiment := levelAssignments[experiment][row := levelAssignments[experiment][row][col := level.value]]];
      return true;
    }
  }
}
