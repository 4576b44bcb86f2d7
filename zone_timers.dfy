/**
 * The timer arrays of a zone, as values: sorting the timers handed to the
 * constructor (Arrays.sort), looking a timer up (Arrays.binarySearch), the
 * old-to-new index map of the constructor, and the two-index merge of two
 * zones' timer arrays into ZoneTriple entries.
 */
module ZoneTimers {
  import opened Wrappers

  /** The zero timer's name in _indexToTimer. */
  const ZERO_TIMER: int := -1

  predicate StrictlySorted(s: seq<int>)
  {
    forall p, q :: 0 <= p < q < |s| ==> s[p] < s[q]
  }

  /** A valid _indexToTimer: the zero timer first, strictly ascending. */
  predicate ValidTimers(a: seq<int>)
  {
    |a| >= 1 && a[0] == ZERO_TIMER && StrictlySorted(a)
  }

  predicate Distinct(s: seq<int>)
  {
    forall p, q :: 0 <= p < q < |s| ==> s[p] != s[q]
  }

  // ---------------------------------------------------------------------
  // Arrays.sort

  /** Inserts `x` before the first entry that is not smaller. */
  function Insert(x: int, s: seq<int>): (r: seq<int>)
    ensures |r| == |s| + 1
    ensures multiset(r) == multiset(s) + multiset{x}
  {
    if |s| == 0 then [x]
    else if x <= s[0] then [x] + s
    else
      assert s == [s[0]] + s[1..];
      [s[0]] + Insert(x, s[1..])
  }

  /** A value below everything in a strictly ascending sequence can go in front. */
  lemma ConsSorted(h: int, s: seq<int>)
    requires StrictlySorted(s) && forall k :: 0 <= k < |s| ==> h < s[k]
    ensures StrictlySorted([h] + s)
  {
    var r := [h] + s;
    forall p, q | 0 <= p < q < |r|
      ensures r[p] < r[q]
    {
      if p > 0 {
        assert r[p] == s[p - 1] && r[q] == s[q - 1];
      } else {
        assert r[q] == s[q - 1];
      }
    }
  }

  lemma TailSorted(s: seq<int>)
    requires StrictlySorted(s) && |s| > 0
    ensures StrictlySorted(s[1..])
  {
    var tail := s[1..];
    forall p, q | 0 <= p < q < |tail|
      ensures tail[p] < tail[q]
    {
      assert tail[p] == s[p + 1] && tail[q] == s[q + 1];
    }
  }

  /** Inserting a new value into a strictly ascending sequence keeps it strictly ascending. */
  lemma {:induction false} InsertSorted(x: int, s: seq<int>)
    requires StrictlySorted(s) && x !in s
    ensures StrictlySorted(Insert(x, s))
  {
    if |s| > 0 && x > s[0] {
      var tail := s[1..];
      assert s == [s[0]] + tail;
      TailSorted(s);
      var rest := Insert(x, tail);
      InsertSorted(x, tail);
      forall k | 0 <= k < |rest|
        ensures s[0] < rest[k]
      {
        assert rest[k] in multiset(tail) + multiset{x};
        if rest[k] != x {
          assert rest[k] in tail;
          var j :| 0 <= j < |tail| && tail[j] == rest[k];
          assert s[j + 1] == rest[k];
        }
      }
      ConsSorted(s[0], rest);
    } else if |s| > 0 {
      forall k | 0 <= k < |s|
        ensures x < s[k]
      {
        if k > 0 {
          assert s[0] < s[k];
        }
      }
      ConsSorted(x, s);
    }
  }

  /** Arrays.sort on distinct timers: a strictly ascending permutation. */
  function SortSeq(s: seq<int>): (r: seq<int>)
    ensures |r| == |s| && multiset(r) == multiset(s)
    ensures Distinct(s) ==> StrictlySorted(r)
  {
    if |s| == 0 then []
    else
      assert s == [s[0]] + s[1..];
      var rest := SortSeq(s[1..]);
      assert Distinct(s) ==> StrictlySorted(Insert(s[0], rest)) by {
        if Distinct(s) {
          assert s[0] !in s[1..] && Distinct(s[1..]);
          assert s[0] !in multiset(rest);
          InsertSorted(s[0], rest);
        }
      }
      Insert(s[0], rest)
  }

  // ---------------------------------------------------------------------
  // Arrays.binarySearch

  /** How many entries of `a` are below `key`. */
  function CountBelow(a: seq<int>, key: int): (r: nat)
    ensures r <= |a|
  {
    if |a| == 0 then 0 else CountBelow(a[..|a| - 1], key) + (if a[|a| - 1] < key then 1 else 0)
  }

  /** In an ascending sequence the entries below `key` are exactly the first CountBelow ones. */
  lemma {:induction false} CountBelowSplits(a: seq<int>, key: int)
    requires StrictlySorted(a)
    ensures forall p :: 0 <= p < CountBelow(a, key) ==> a[p] < key
    ensures forall p :: CountBelow(a, key) <= p < |a| ==> a[p] >= key
  {
    if |a| > 0 {
      CountBelowSplits(a[..|a| - 1], key);
    }
  }

  /**
   * Arrays.binarySearch on a strictly ascending array: the index of `key`
   * when present, otherwise -(insertion point) - 1.
   */
  function BinarySearch(a: seq<int>, key: int): (r: int)
    requires StrictlySorted(a)
    ensures 0 <= r ==> r < |a| && a[r] == key
    ensures r < 0 <==> key !in a
    ensures r < 0 ==> -r - 1 <= |a|
                      && (forall p :: 0 <= p < -r - 1 ==> a[p] < key)
                      && (forall p :: -r - 1 <= p < |a| ==> a[p] > key)
  {
    CountBelowSplits(a, key);
    var ins: int := CountBelow(a, key);
    if ins < |a| && a[ins] == key then ins else -ins - 1
  }

  /** A present key is found at its (unique) position. */
  lemma SearchFinds(a: seq<int>, p: nat)
    requires StrictlySorted(a) && p < |a|
    ensures BinarySearch(a, a[p]) == p
  {
  }

  // ---------------------------------------------------------------------
  // The constructor's timer array and index map

  /** _indexToTimer of a zone built from `ts`: the zero timer, then the timers sorted. */
  function IndexToTimer(ts: seq<int>): (r: seq<int>)
    ensures |r| == |ts| + 1 && r[0] == ZERO_TIMER
    ensures multiset(r[1..]) == multiset(ts)
  {
    var r := [ZERO_TIMER] + SortSeq(ts);
    assert r[1..] == SortSeq(ts);
    r
  }

  /** Timers are transition indices: non-negative and pairwise distinct. */
  predicate TimerList(ts: seq<int>)
  {
    Distinct(ts) && forall k :: 0 <= k < |ts| ==> ts[k] >= 0
  }

  /** The constructor's timer array is a valid one: strictly ascending, the zero timer first. */
  lemma IndexToTimerSorted(ts: seq<int>)
    requires TimerList(ts)
    ensures StrictlySorted(IndexToTimer(ts))
  {
    var r := IndexToTimer(ts);
    forall q | 1 <= q < |r|
      ensures r[0] < r[q]
    {
      assert r[q] in multiset(r[1..]);
    }
  }

  /**
   * newIndex: the DBM index in the new zone of DBM index `i` of the caller's
   * matrix; 0 stays 0, and i >= 1 is where timer ts[i - 1] ended up.
   */
  function NewIndex(ts: seq<int>, i: nat): (r: nat)
    requires TimerList(ts) && i <= |ts|
    ensures r <= |ts|
    ensures IndexToTimer(ts)[r] == if i == 0 then ZERO_TIMER else ts[i - 1]
  {
    IndexToTimerSorted(ts);
    if i == 0 then 0
    else
      assert ts[i - 1] in multiset(ts);
      assert ts[i - 1] in IndexToTimer(ts)[1..];
      BinarySearch(IndexToTimer(ts), ts[i - 1])
  }

  /** Different timers of the caller go to different DBM indices. */
  lemma NewIndexInjective(ts: seq<int>, i: nat, j: nat)
    requires TimerList(ts) && i <= |ts| && j <= |ts| && i != j
    ensures NewIndex(ts, i) != NewIndex(ts, j)
  {
  }

  /** The whole newIndex map of the constructor, for the caller's DBM indices 0..|ts|. */
  function NewIndexes(ts: seq<int>): (r: seq<nat>)
    requires TimerList(ts)
    ensures |r| == |ts| + 1
    ensures forall i :: 0 <= i <= |ts| ==> r[i] == NewIndex(ts, i)
  {
    seq(|ts| + 1, i requires 0 <= i <= |ts| => NewIndex(ts, i))
  }

  /** The zero timer keeps index 0, and the others go injectively into 1..|ts|. */
  lemma NewIndexesMap(ts: seq<int>)
    requires TimerList(ts)
    ensures var r := NewIndexes(ts);
      && r[0] == 0
      && (forall i :: 0 <= i <= |ts| ==> r[i] <= |ts|)
      && (forall i :: 1 <= i <= |ts| ==> r[i] >= 1)
      && (forall i, i' :: 0 <= i < i' <= |ts| ==> r[i] != r[i'])
  {
    var r := NewIndexes(ts);
    forall i, i' | 0 <= i < i' <= |ts|
      ensures r[i] != r[i']
    {
      NewIndexInjective(ts, i, i');
    }
  }

  /** NewIndex is injective, and only the zero timer goes to 0. */
  lemma NewIndexInjectiveAll(ts: seq<int>, i: nat, j: nat)
    requires TimerList(ts) && i <= |ts| && j <= |ts|
    ensures forall i' :: 0 <= i' <= |ts| && i' != i ==> NewIndex(ts, i') != NewIndex(ts, i)
    ensures forall j' :: 0 <= j' <= |ts| && j' != j ==> NewIndex(ts, j') != NewIndex(ts, j)
    ensures i >= 1 ==> NewIndex(ts, i) >= 1
  {
  }

  /** Every DBM index of the new zone is the image of one of the caller's. */
  lemma NewIndexOnto(ts: seq<int>, p: nat)
    requires TimerList(ts) && p <= |ts|
    ensures exists i :: 0 <= i <= |ts| && NewIndex(ts, i) == p
  {
    var r := IndexToTimer(ts);
    IndexToTimerSorted(ts);
    if p == 0 {
      assert NewIndex(ts, 0) == 0;
    } else {
      assert r[p] in multiset(r[1..]);
      assert r[p] in multiset(ts);
      var k :| 0 <= k < |ts| && ts[k] == r[p];
      SearchFinds(r, p);
      assert NewIndex(ts, k + 1) == p;
    }
  }

  // ---------------------------------------------------------------------
  // mergeTimers

  /** The two zones of a merge; ZoneTriple holds them by reference. */
  datatype Side = ThisZone | OtherZone

  /**
   * ZoneTriple: a timer of the merged zone, the zone it comes from and its
   * index there; a timer of both zones also names the other zone and its
   * index in it (zone2, index2), and otherwise has no zone2 and index2 0.
   */
  datatype Triple = Triple(timer: int, zone1: Side, index1: nat, zone2: Option<Side>, index2: nat)

  /** The index of a merged timer in zone `z`, when `z` holds it. */
  function IndexIn(t: Triple, z: Side): Option<nat>
  {
    if t.zone1 == z then Some(t.index1) else if t.zone2 == Some(z) then Some(t.index2) else None
  }

  function Single(timer: int, zone: Side, index: nat): Triple
  {
    Triple(timer, zone, index, None, 0)
  }

  function Shared(timer: int, index1: nat, index2: nat): Triple
  {
    Triple(timer, ThisZone, index1, Some(OtherZone), index2)
  }

  /**
   * The entries the merge loop of mergeTimers appends from this zone's
   * position x and the other zone's position y on: a common timer once,
   * otherwise the smaller one, then what is left of either array.
   */
  function MergeFrom(a: seq<int>, b: seq<int>, x: nat, y: nat): (r: seq<Triple>)
    requires x <= |a| && y <= |b|
    decreases |a| - x + |b| - y
    ensures |r| <= |a| - x + |b| - y
  {
    if x < |a| && y < |b| then
      if a[x] == b[y] then [Shared(a[x], x, y)] + MergeFrom(a, b, x + 1, y + 1)
      else if a[x] < b[y] then [Single(a[x], ThisZone, x)] + MergeFrom(a, b, x + 1, y)
      else [Single(b[y], OtherZone, y)] + MergeFrom(a, b, x, y + 1)
    else if x < |a| then [Single(a[x], ThisZone, x)] + MergeFrom(a, b, x + 1, y)
    else if y < |b| then [Single(b[y], OtherZone, y)] + MergeFrom(a, b, x, y + 1)
    else []
  }

  /** mergeTimers: the entry for the zero timer, named `zero`, then the merge of both arrays past it. */
  function MergedTriples(zero: int, a: seq<int>, b: seq<int>): seq<Triple>
    requires |a| >= 1 && |b| >= 1
  {
    [Shared(zero, 0, 0)] + MergeFrom(a, b, 1, 1)
  }

  function Timers(tr: seq<Triple>): (r: seq<int>)
    ensures |r| == |tr| && forall k :: 0 <= k < |tr| ==> r[k] == tr[k].timer
  {
    seq(|tr|, k requires 0 <= k < |tr| => tr[k].timer)
  }

  lemma TimersCons(t: Triple, tr: seq<Triple>)
    ensures Timers([t] + tr) == [t.timer] + Timers(tr)
  {
  }

  /**
   * Every entry names a timer its zones really hold at the recorded indices;
   * a timer of both zones is recorded with this zone first.
   */
  predicate WellIndexed(tr: seq<Triple>, a: seq<int>, b: seq<int>)
  {
    forall k :: 0 <= k < |tr| ==>
      (tr[k].zone1 == ThisZone ==> tr[k].index1 < |a| && a[tr[k].index1] == tr[k].timer)
      && (tr[k].zone1 == OtherZone ==> tr[k].index1 < |b| && b[tr[k].index1] == tr[k].timer && tr[k].zone2 == None)
      && (tr[k].zone2 != None ==> tr[k].zone2 == Some(OtherZone) && tr[k].zone1 == ThisZone
                                  && tr[k].index2 < |b| && b[tr[k].index2] == tr[k].timer)
  }

  /** The merge records a timer as common exactly when both arrays hold it. */
  predicate SharedExactly(tr: seq<Triple>, a: seq<int>, b: seq<int>)
  {
    forall k :: 0 <= k < |tr| ==> (tr[k].zone2 != None <==> tr[k].timer in a && tr[k].timer in b)
  }

  /** Where the merge loop goes after the step at (x, y). */
  function NextX(a: seq<int>, b: seq<int>, x: nat, y: nat): nat
  {
    if x < |a| && (y >= |b| || a[x] <= b[y]) then x + 1 else x
  }

  function NextY(a: seq<int>, b: seq<int>, x: nat, y: nat): nat
  {
    if y < |b| && (x >= |a| || b[y] <= a[x]) then y + 1 else y
  }

  /** One step of the merge: the head entry, then the merge from the next positions. */
  lemma MergeStep(a: seq<int>, b: seq<int>, x: nat, y: nat)
    requires x <= |a| && y <= |b| && (x < |a| || y < |b|)
    ensures NextX(a, b, x, y) <= |a| && NextY(a, b, x, y) <= |b|
    ensures MergeFrom(a, b, x, y) == [MergeFrom(a, b, x, y)[0]] + MergeFrom(a, b, NextX(a, b, x, y), NextY(a, b, x, y))
    ensures MergeFrom(a, b, x, y)[0].timer == if NextX(a, b, x, y) == x + 1 then a[x] else b[y]
    ensures a[x..] == if NextX(a, b, x, y) == x then a[x..] else [a[x]] + a[x + 1..]
    ensures b[y..] == if NextY(a, b, x, y) == y then b[y..] else [b[y]] + b[y + 1..]
    ensures NextX(a, b, x, y) + NextY(a, b, x, y) > x + y
  {
    var x', y' := NextX(a, b, x, y), NextY(a, b, x, y);
    if x < |a| && y < |b| {
      if a[x] == b[y] {
        assert x' == x + 1 && y' == y + 1;
      } else if a[x] < b[y] {
        assert x' == x + 1 && y' == y;
      } else {
        assert x' == x && y' == y + 1;
      }
    } else if x < |a| {
      assert x' == x + 1 && y' == y;
    } else {
      assert x' == x && y' == y + 1;
    }
    if x' == x + 1 {
      assert a[x..] == [a[x]] + a[x + 1..];
    }
    if y' == y + 1 {
      assert b[y..] == [b[y]] + b[y + 1..];
    }
  }

  /** The merge from (x, y) holds exactly the timers of a[x..] and b[y..]. */
  lemma {:induction false} MergeFromMembers(a: seq<int>, b: seq<int>, x: nat, y: nat)
    requires x <= |a| && y <= |b|
    ensures forall t :: t in Timers(MergeFrom(a, b, x, y)) <==> t in a[x..] || t in b[y..]
    decreases |a| - x + |b| - y
  {
    if x < |a| || y < |b| {
      MergeStep(a, b, x, y);
      var x', y' := NextX(a, b, x, y), NextY(a, b, x, y);
      MergeFromMembers(a, b, x', y');
      var r := MergeFrom(a, b, x, y);
      TimersCons(r[0], MergeFrom(a, b, x', y'));
    }
  }

  /** On strictly ascending arrays the merged timers are strictly ascending. */
  lemma {:induction false} MergeFromSorted(a: seq<int>, b: seq<int>, x: nat, y: nat)
    requires StrictlySorted(a) && StrictlySorted(b) && x <= |a| && y <= |b|
    ensures StrictlySorted(Timers(MergeFrom(a, b, x, y)))
    decreases |a| - x + |b| - y
  {
    if x < |a| || y < |b| {
      MergeStep(a, b, x, y);
      var x', y' := NextX(a, b, x, y), NextY(a, b, x, y);
      MergeFromSorted(a, b, x', y');
      MergeFromMembers(a, b, x', y');
      var r := MergeFrom(a, b, x, y);
      var rest := Timers(MergeFrom(a, b, x', y'));
      TimersCons(r[0], MergeFrom(a, b, x', y'));
      var h := r[0].timer;
      assert forall p :: x' <= p < |a| ==> h < a[p];
      assert forall q :: y' <= q < |b| ==> h < b[q];
      forall k | 0 <= k < |rest|
        ensures h < rest[k]
      {
        assert rest[k] in rest;
        if rest[k] in a[x'..] {
          var p :| x' <= p < |a| && a[p] == rest[k];
        } else {
          var q :| y' <= q < |b| && b[q] == rest[k];
        }
      }
    }
  }

  /** Every merged entry is recorded at the right indices. */
  lemma {:induction false} MergeFromIndexed(a: seq<int>, b: seq<int>, x: nat, y: nat)
    requires x <= |a| && y <= |b|
    ensures WellIndexed(MergeFrom(a, b, x, y), a, b)
    decreases |a| - x + |b| - y
  {
    if x < |a| || y < |b| {
      MergeStep(a, b, x, y);
      MergeFromIndexed(a, b, NextX(a, b, x, y), NextY(a, b, x, y));
    }
  }

  /** Everything the merge has consumed is below everything it has not. */
  predicate Consumed(a: seq<int>, b: seq<int>, x: nat, y: nat)
    requires x <= |a| && y <= |b|
  {
    (forall p, q :: 0 <= p < x && y <= q < |b| ==> a[p] < b[q])
    && (forall p, q :: 0 <= q < y && x <= p < |a| ==> b[q] < a[p])
  }

  /** The merge's next entry is recorded as common exactly when both arrays hold its timer. */
  lemma MergeHeadShared(a: seq<int>, b: seq<int>, x: nat, y: nat)
    requires StrictlySorted(a) && StrictlySorted(b) && x <= |a| && y <= |b| && (x < |a| || y < |b|)
    requires Consumed(a, b, x, y)
    ensures var h := MergeFrom(a, b, x, y)[0]; h.zone2 != None <==> h.timer in a && h.timer in b
  {
    MergeStep(a, b, x, y);
    var h := MergeFrom(a, b, x, y)[0];
    if h.zone2 == None && NextX(a, b, x, y) == x + 1 {
      forall q | 0 <= q < |b|
        ensures b[q] != h.timer
      {
        if q >= y {
          assert b[q] >= b[y];
        }
      }
    } else if h.zone2 == None {
      forall p | 0 <= p < |a|
        ensures a[p] != h.timer
      {
        if p >= x {
          assert a[p] >= a[x];
        }
      }
    }
  }

  /** After a step of the merge, every consumed timer is still below every one left in the other array. */
  lemma ConsumedStep(a: seq<int>, b: seq<int>, x: nat, y: nat)
    requires StrictlySorted(a) && StrictlySorted(b) && x <= |a| && y <= |b| && (x < |a| || y < |b|)
    requires Consumed(a, b, x, y)
    ensures NextX(a, b, x, y) <= |a| && NextY(a, b, x, y) <= |b|
    ensures Consumed(a, b, NextX(a, b, x, y), NextY(a, b, x, y))
  {
    var x', y' := NextX(a, b, x, y), NextY(a, b, x, y);
    forall p, q | 0 <= p < x' && y' <= q < |b|
      ensures a[p] < b[q]
    {
      if p == x {
        assert b[q] >= b[y];
      }
    }
    forall p, q | 0 <= q < y' && x' <= p < |a|
      ensures b[q] < a[p]
    {
      if q == y {
        assert a[p] >= a[x];
      }
    }
  }

  /** A merged timer is recorded as common exactly when both arrays hold it. */
  lemma {:induction false} MergeFromShared(a: seq<int>, b: seq<int>, x: nat, y: nat)
    requires StrictlySorted(a) && StrictlySorted(b) && x <= |a| && y <= |b|
    requires Consumed(a, b, x, y)
    ensures SharedExactly(MergeFrom(a, b, x, y), a, b)
    decreases |a| - x + |b| - y
  {
    if x < |a| || y < |b| {
      MergeStep(a, b, x, y);
      MergeHeadShared(a, b, x, y);
      ConsumedStep(a, b, x, y);
      MergeFromShared(a, b, NextX(a, b, x, y), NextY(a, b, x, y));
    }
  }

  /**
   * mergeTimers on two valid timer arrays: the zero entry, then exactly the
   * non-zero timers of both, strictly ascending, each recorded at its
   * indices and recorded as common exactly when both zones hold it.
   */
  lemma MergedTriplesCorrect(zero: int, a: seq<int>, b: seq<int>)
    requires StrictlySorted(a) && StrictlySorted(b) && |a| >= 1 && |b| >= 1 && a[0] == ZERO_TIMER && b[0] == ZERO_TIMER
    ensures forall t :: t in Timers(MergedTriples(zero, a, b)[1..]) <==> t in a[1..] || t in b[1..]
    ensures StrictlySorted(Timers(MergedTriples(zero, a, b)[1..]))
    ensures forall k :: 1 <= k < |MergedTriples(zero, a, b)| ==> MergedTriples(zero, a, b)[k].timer > ZERO_TIMER
    ensures WellIndexed(MergedTriples(zero, a, b)[1..], a, b)
    ensures SharedExactly(MergedTriples(zero, a, b)[1..], a, b)
  {
    var tr := MergedTriples(zero, a, b);
    assert tr[1..] == MergeFrom(a, b, 1, 1);
    MergeFromMembers(a, b, 1, 1);
    MergeFromSorted(a, b, 1, 1);
    MergeFromIndexed(a, b, 1, 1);
    MergeFromShared(a, b, 1, 1);
    forall k | 1 <= k < |tr|
      ensures tr[k].timer > ZERO_TIMER
    {
      assert tr[k].timer in Timers(tr[1..]) by {
        assert Timers(tr[1..])[k - 1] == tr[k].timer;
      }
    }
  }

  /** With the zero entry named ZERO_TIMER every entry, the zero one included, is recorded correctly. */
  lemma MergedTriplesIndexed(a: seq<int>, b: seq<int>)
    requires StrictlySorted(a) && StrictlySorted(b) && |a| >= 1 && |b| >= 1 && a[0] == ZERO_TIMER && b[0] == ZERO_TIMER
    ensures WellIndexed(MergedTriples(ZERO_TIMER, a, b), a, b)
    ensures SharedExactly(MergedTriples(ZERO_TIMER, a, b), a, b)
  {
    var tr := MergedTriples(ZERO_TIMER, a, b);
    MergedTriplesCorrect(ZERO_TIMER, a, b);
    assert tr == [tr[0]] + tr[1..];
    assert tr[0].timer in a && tr[0].timer in b;
  }

  /** With the zero entry named ZERO_TIMER, the merged timer array is a valid one. */
  lemma MergedTimersValid(a: seq<int>, b: seq<int>)
    requires StrictlySorted(a) && StrictlySorted(b) && |a| >= 1 && |b| >= 1 && a[0] == ZERO_TIMER && b[0] == ZERO_TIMER
    ensures Timers(MergedTriples(ZERO_TIMER, a, b))[0] == ZERO_TIMER
    ensures StrictlySorted(Timers(MergedTriples(ZERO_TIMER, a, b)))
  {
    var tr := MergedTriples(ZERO_TIMER, a, b);
    MergedTriplesCorrect(ZERO_TIMER, a, b);
    var ts := Timers(tr);
    assert Timers(tr[1..]) == ts[1..];
  }

  /**
   * As written, mergeTimers names the zero entry 0 rather than ZERO_TIMER:
   * the merged array never starts with the zero timer, and when a zone
   * holds the timer of transition 0 the name 0 appears twice.
   */
  lemma MergedTriplesAsWritten(a: seq<int>, b: seq<int>)
    requires StrictlySorted(a) && StrictlySorted(b) && |a| >= 1 && |b| >= 1 && a[0] == ZERO_TIMER && b[0] == ZERO_TIMER
    ensures Timers(MergedTriples(0, a, b))[0] != ZERO_TIMER
    ensures 0 in a ==> !StrictlySorted(Timers(MergedTriples(0, a, b)))
  {
    var tr := MergedTriples(0, a, b);
    if 0 in a {
      MergedTriplesCorrect(0, a, b);
      var p :| 0 <= p < |a| && a[p] == 0;
      assert p != 0;
      assert 0 in a[1..] by {
        assert a[1..][p - 1] == 0;
      }
      var ts := Timers(tr[1..]);
      var k :| 0 <= k < |ts| && ts[k] == 0;
      assert Timers(tr)[0] == 0 && Timers(tr)[k + 1] == 0;
    }
  }
}
