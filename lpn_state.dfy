/**
 * A state of a labelled Petri net (LPN) met during state-graph exploration:
 * the marking, the vector of variable values and the vector recording which
 * transitions are enabled, with a hash code cached on first use.
 */
module LpnState {
  import opened Wrappers
  import opened JavaInt

  /**
   * The parts of an LPN file a state consults: its label (`title`), the variable name
   * at each index (the variable-index map), its output and internal variables.
   */
  datatype Lpn = Lpn(title: string, varIndex: map<nat, string>, outputs: set<string>, internals: set<string>)

  /** The variable-index map's key for index `i`, or None where it has none (null). */
  function VarName(varIndex: map<nat, string>, i: nat): Option<string>
  {
    if i in varIndex then Some(varIndex[i]) else None
  }

  /** The value an assignment of variable names gives the variable at index `i`, if it names it. */
  function NewValue(newVector: map<string, int>, varIndex: map<nat, string>, i: nat): Option<int>
  {
    var name := VarName(varIndex, i);
    if name.Some? && name.value in newVector then Some(newVector[name.value]) else None
  }

  // ---------------------------------------------------------------------
  // update: the vector after an assignment, and whether anything changed

  /** Some index below `n` whose variable the assignment gives a value other than its current one. */
  predicate ChangesBelow(v: seq<int>, newVector: map<string, int>, varIndex: map<nat, string>, n: nat)
    requires n <= |v|
  {
    exists i :: 0 <= i < n && NewValue(newVector, varIndex, i).Some? && NewValue(newVector, varIndex, i).value != v[i]
  }

  predicate Changes(v: seq<int>, newVector: map<string, int>, varIndex: map<nat, string>)
  {
    ChangesBelow(v, newVector, varIndex, |v|)
  }

  /** Each variable takes the assigned value when the assignment names it, and keeps its value otherwise. */
  function UpdatedVector(v: seq<int>, newVector: map<string, int>, varIndex: map<nat, string>): (r: seq<int>)
    ensures |r| == |v|
  {
    seq(|v|, i requires 0 <= i < |v| =>
      if NewValue(newVector, varIndex, i).Some? then NewValue(newVector, varIndex, i).value else v[i])
  }

  /** The vector changes exactly when some assigned value differs from the current one. */
  lemma UpdateChangesIff(v: seq<int>, newVector: map<string, int>, varIndex: map<nat, string>)
    ensures Changes(v, newVector, varIndex) <==> UpdatedVector(v, newVector, varIndex) != v
  {
    var r := UpdatedVector(v, newVector, varIndex);
    if r != v {
      var i :| 0 <= i < |v| && r[i] != v[i];
      assert NewValue(newVector, varIndex, i).Some?;
    }
    if Changes(v, newVector, varIndex) {
      var i :| 0 <= i < |v| && NewValue(newVector, varIndex, i).Some? && NewValue(newVector, varIndex, i).value != v[i];
      assert r[i] != v[i];
    }
  }

  /** Applying the same assignment a second time changes nothing. */
  lemma UpdateIdempotent(v: seq<int>, newVector: map<string, int>, varIndex: map<nat, string>)
    ensures UpdatedVector(UpdatedVector(v, newVector, varIndex), newVector, varIndex) == UpdatedVector(v, newVector, varIndex)
    ensures !Changes(UpdatedVector(v, newVector, varIndex), newVector, varIndex)
  {
    var r := UpdatedVector(v, newVector, varIndex);
    UpdateChangesIff(r, newVector, varIndex);
    assert UpdatedVector(r, newVector, varIndex) == r;
  }

  // ---------------------------------------------------------------------
  // getLocalState

  /** The variable at index `i` is an output or an internal variable of the LPN. */
  predicate IsLocal(l: Lpn, i: nat)
  {
    var name := VarName(l.varIndex, i);
    name.Some? && (name.value in l.outputs || name.value in l.internals)
  }

  /** The vector with every variable that is neither an output nor internal set to 0. */
  function LocalVector(l: Lpn, v: seq<int>): (r: seq<int>)
    ensures |r| == |v|
  {
    seq(|v|, i requires 0 <= i < |v| => if IsLocal(l, i) then v[i] else 0)
  }

  /** Projecting twice is projecting once; a vector already zero outside the local variables is its own projection. */
  lemma LocalVectorProjects(l: Lpn, v: seq<int>)
    ensures LocalVector(l, LocalVector(l, v)) == LocalVector(l, v)
    ensures (forall i :: 0 <= i < |v| && !IsLocal(l, i) ==> v[i] == 0) <==> LocalVector(l, v) == v
  {
    var r := LocalVector(l, v);
    assert LocalVector(l, r) == r;
    if r == v {
      forall i | 0 <= i < |v| && !IsLocal(l, i)
        ensures v[i] == 0
      {
        assert r[i] == 0;
      }
    }
  }

  // ---------------------------------------------------------------------
  // getEnabledTransitions

  /** The indices below `n` of the enabled transitions, in increasing order. */
  function EnabledBelow(t: seq<bool>, n: nat): (r: seq<nat>)
    requires n <= |t|
    ensures |r| <= n
  {
    if n == 0 then [] else EnabledBelow(t, n - 1) + (if t[n - 1] then [n - 1] else [])
  }

  /** The list holds exactly the enabled indices, each once, in increasing order. */
  lemma {:induction false} EnabledBelowSpec(t: seq<bool>, n: nat)
    requires n <= |t|
    ensures forall k: nat :: k in EnabledBelow(t, n) <==> k < n && t[k]
    ensures forall p, q :: 0 <= p < q < |EnabledBelow(t, n)| ==> EnabledBelow(t, n)[p] < EnabledBelow(t, n)[q]
  {
    if n > 0 {
      EnabledBelowSpec(t, n - 1);
      var prev := EnabledBelow(t, n - 1);
      var tail: seq<nat> := if t[n - 1] then [n - 1] else [];
      assert EnabledBelow(t, n) == prev + tail;
      forall k: nat
        ensures k in prev + tail <==> k < n && t[k]
      {
        assert k in prev + tail <==> k in prev || k in tail;
      }
      forall p, q | 0 <= p < q < |prev + tail|
        ensures (prev + tail)[p] < (prev + tail)[q]
      {
        if q >= |prev| {
          assert prev[p] in prev;
        }
      }
    }
  }

  // ---------------------------------------------------------------------
  // hashCode

  /** String.hashCode: s[0]*31^(n-1) + ... + s[n-1], in 32-bit arithmetic. */
  function StringHash(s: string): (h: int)
    ensures IsInt32(h)
  {
    if |s| == 0 then 0 else Wrap32(31 * StringHash(s[..|s| - 1]) + s[|s| - 1] as int)
  }

  /** Arrays.hashCode(int[]). */
  function IntsHash(a: seq<int>): (h: int)
    ensures IsInt32(h)
  {
    if |a| == 0 then 1 else Wrap32(31 * IntsHash(a[..|a| - 1]) + a[|a| - 1])
  }

  /** Arrays.hashCode(boolean[]): true counts 1231, false 1237. */
  function BoolsHash(a: seq<bool>): (h: int)
    ensures IsInt32(h)
  {
    if |a| == 0 then 1 else Wrap32(31 * BoolsHash(a[..|a| - 1]) + if a[|a| - 1] then 1231 else 1237)
  }

  /** The hash of a state's LPN label, marking, vector and transition vector, combined with prime 31. */
  function StateHash(lpn: Option<Lpn>, m: seq<int>, v: seq<int>, t: seq<bool>): (h: int)
    ensures IsInt32(h)
  {
    var r0 := Wrap32(31 * 1 + if lpn.None? then 0 else StringHash(lpn.value.title));
    var r1 := Wrap32(31 * r0 + IntsHash(m));
    var r2 := Wrap32(31 * r1 + IntsHash(v));
    Wrap32(31 * r2 + BoolsHash(t))
  }

  /** A fresh array holding the elements of `a`. */
  method CopyOf<T(0)>(a: array<T>) returns (b: array<T>)
    ensures fresh(b) && b[..] == a[..]
  {
    b := new T[a.Length];
    var k := 0;
    while k < a.Length
      invariant 0 <= k <= a.Length
      invariant forall i :: 0 <= i < k ==> b[i] == a[i]
    {
      b[k] := a[k];
      k := k + 1;
    }
  }

  class State {
    var marking: array<int>
    var vector: array<int>
    /** Whether each transition is enabled. */
    var tranVector: array<bool>
    /** The cached hash code; 0 means not yet computed. */
    var hashVal: int
    var lpn: Option<Lpn>
    var index: int
    var localEnabledOnly: bool

    /** A state over the given arrays, which it shares with the caller. */
    constructor Init(lpn: Option<Lpn>, m: array<int>, v: array<int>, t: array<bool>)
      ensures this.lpn == lpn && marking == m && vector == v && tranVector == t
      ensures hashVal == 0 && index == 0 && !localEnabledOnly
    {
      this.lpn := lpn;
      marking := m;
      vector := v;
      tranVector := t;
      hashVal := 0;
      index := 0;
      localEnabledOnly := false;
    }

    /** The copy constructor: fresh arrays with the same elements, the hash not carried over. */
    constructor Copy(other: State)
      ensures lpn == other.lpn && fresh(marking) && fresh(vector) && fresh(tranVector)
      ensures marking[..] == other.marking[..] && vector[..] == other.vector[..] && tranVector[..] == other.tranVector[..]
      ensures hashVal == 0 && index == other.index && localEnabledOnly == other.localEnabledOnly
      ensures Equals(other)
    {
      var m := CopyOf(other.marking);
      var v := CopyOf(other.vector);
      var t := CopyOf(other.tranVector);
      lpn := other.lpn;
      marking := m;
      vector := v;
      tranVector := t;
      hashVal := 0;
      index := other.index;
      localEnabledOnly := other.localEnabledOnly;
    }

    /**
     * equals: the same object, or another state with an equal LPN (both
     * absent, or equal) and element-wise equal marking, vector and
     * transition vector. Not equal to null.
     */
    predicate Equals(other: State?)
      reads this, marking, vector, tranVector
      reads if other != null then {other, other.marking, other.vector, other.tranVector} else {}
      ensures Equals(other) <==>
        other != null && lpn == other.lpn && marking[..] == other.marking[..]
        && vector[..] == other.vector[..] && tranVector[..] == other.tranVector[..]
    {
      if this == other then true
      else if other == null then false
      else if lpn != other.lpn then false
      else if marking[..] != other.marking[..] then false
      else if vector[..] != other.vector[..] then false
      else tranVector[..] == other.tranVector[..]
    }

    /** hashCode: computed from the state's contents when the cache holds 0, the cached value otherwise. */
    method HashCode() returns (h: int)
      modifies this`hashVal
      ensures old(hashVal) == 0 ==> h == StateHash(lpn, marking[..], vector[..], tranVector[..])
      ensures old(hashVal) != 0 ==> h == old(hashVal)
      ensures hashVal == h
    {
      if hashVal == 0 {
        hashVal := StateHash(lpn, marking[..], vector[..], tranVector[..]);
      }
      h := hashVal;
    }

    /**
     * getLocalState: a new state over the same marking and transition
     * vector whose vector keeps the output and internal variables and
     * zeroes the others. None where the state has no LPN (it throws).
     */
    method LocalState() returns (r: Option<State>)
      ensures r.None? <==> lpn.None?
      ensures r.Some? ==> (fresh(r.value) && fresh(r.value.vector)
                           && r.value.vector[..] == LocalVector(lpn.value, vector[..])
                           && r.value.marking == marking && r.value.tranVector == tranVector && r.value.lpn == lpn
                           && r.value.hashVal == 0 && r.value.index == 0 && !r.value.localEnabledOnly)
    {
      if lpn.None? {
        return None;
      }
      var l := lpn.value;
      var outVec := new int[vector.Length];
      var k := 0;
      while k < vector.Length
        invariant 0 <= k <= vector.Length
        invariant forall i :: 0 <= i < k ==> outVec[i] == LocalVector(l, vector[..])[i]
      {
        if IsLocal(l, k) {
          outVec[k] := vector[k];
        } else {
          outVec[k] := 0;
        }
        k := k + 1;
      }
      var s := new State.Init(lpn, marking, outVec, tranVector);
      r := Some(s);
    }

    /**
     * getEnabledTransitions: the indices of the enabled transitions in
     * increasing order (the list holds the LPN's transition at each one).
     */
    method EnabledTransitions() returns (r: seq<nat>)
      ensures r == EnabledBelow(tranVector[..], tranVector.Length)
      ensures forall k: nat :: k in r <==> k < tranVector.Length && tranVector[k]
    {
      r := [];
      var k := 0;
      while k < tranVector.Length
        invariant 0 <= k <= tranVector.Length
        invariant r == EnabledBelow(tranVector[..], k)
      {
        if tranVector[k] {
          r := r + [k];
        }
        k := k + 1;
      }
      EnabledBelowSpec(tranVector[..], tranVector.Length);
    }

    /** The loop both update overloads share: the updated vector and whether any value changed. */
    method UpdatedArray(newVector: map<string, int>, varIndex: map<nat, string>) returns (nv: array<int>, changed: bool)
      ensures fresh(nv) && nv[..] == UpdatedVector(vector[..], newVector, varIndex)
      ensures changed <==> Changes(vector[..], newVector, varIndex)
    {
      nv := new int[vector.Length];
      changed := false;
      var k := 0;
      while k < vector.Length
        invariant 0 <= k <= vector.Length
        invariant forall i :: 0 <= i < k ==> nv[i] == UpdatedVector(vector[..], newVector, varIndex)[i]
        invariant changed <==> ChangesBelow(vector[..], newVector, varIndex, k)
      {
        var newVal := NewValue(newVector, varIndex, k);
        if newVal.Some? {
          if vector[k] != newVal.value {
            changed := true;
            nv[k] := newVal.value;
          } else {
            nv[k] := vector[k];
          }
        } else {
          nv[k] := vector[k];
        }
        k := k + 1;
      }
    }

    /**
     * update(SG, newVector, varIndexMap): a new state over the same marking
     * with the updated vector and the transition vector the state graph
     * recomputes for it (`updateEnabled`), or null when no assigned value
     * differs from the current one. The receiver is left unchanged.
     */
    method Update(newVector: map<string, int>, varIndex: map<nat, string>,
                  updateEnabled: (seq<bool>, seq<int>, seq<int>) -> seq<bool>) returns (r: State?)
      ensures r == null <==> !Changes(vector[..], newVector, varIndex)
      ensures r != null ==> (fresh(r) && fresh(r.vector) && fresh(r.tranVector)
                             && r.vector[..] == UpdatedVector(vector[..], newVector, varIndex)
                             && r.tranVector[..] == updateEnabled(tranVector[..], marking[..], r.vector[..])
                             && r.marking == marking && r.lpn == lpn && r.hashVal == 0 && r.index == 0 && !r.localEnabledOnly)
      ensures r != null ==> !r.Equals(this)
    {
      var nv, changed := UpdatedArray(newVector, varIndex);
      var ts := updateEnabled(tranVector[..], marking[..], nv[..]);
      var tv := new bool[|ts|](i requires 0 <= i < |ts| => ts[i]);
      if changed {
        r := new State.Init(lpn, marking, nv, tv);
        UpdateChangesIff(vector[..], newVector, varIndex);
      } else {
        r := null;
      }
    }

    /**
     * update(newVector, varIndexMap, newTranVector) as written: the
     * transition vectors are compared as objects, so a new state comes back
     * whenever a different array is passed, even one with the same
     * elements, and that state equals the receiver.
     */
    method UpdateWithTransitions(newVector: map<string, int>, varIndex: map<nat, string>, newTranVector: array<bool>)
      returns (r: State?)
      ensures r == null <==> !Changes(vector[..], newVector, varIndex) && newTranVector == tranVector
      ensures r != null ==> (fresh(r) && fresh(r.vector)
                             && r.vector[..] == UpdatedVector(vector[..], newVector, varIndex)
                             && r.tranVector == newTranVector && r.marking == marking && r.lpn == lpn
                             && r.hashVal == 0 && r.index == 0 && !r.localEnabledOnly)
      ensures (!Changes(vector[..], newVector, varIndex) && newTranVector != tranVector
               && newTranVector[..] == tranVector[..]) ==> r != null && r.Equals(this)
    {
      var nv, changed := UpdatedArray(newVector, varIndex);
      if tranVector != newTranVector {
        changed := true;
      }
      if changed {
        r := new State.Init(lpn, marking, nv, newTranVector);
        UpdateChangesIff(vector[..], newVector, varIndex);
      } else {
        r := null;
      }
    }

    /**
     * The same update with the transition vectors compared element by
     * element: null exactly when the result would equal the receiver.
     */
    method UpdateWithTransitionsByContent(newVector: map<string, int>, varIndex: map<nat, string>, newTranVector: array<bool>)
      returns (r: State?)
      ensures r == null <==> !Changes(vector[..], newVector, varIndex) && newTranVector[..] == tranVector[..]
      ensures r != null ==> (fresh(r) && fresh(r.vector)
                             && r.vector[..] == UpdatedVector(vector[..], newVector, varIndex)
                             && r.tranVector == newTranVector && r.marking == marking && r.lpn == lpn
                             && r.hashVal == 0 && r.index == 0 && !r.localEnabledOnly)
      ensures r != null ==> !r.Equals(this)
    {
      var nv, changed := UpdatedArray(newVector, varIndex);
      if tranVector[..] != newTranVector[..] {
        changed := true;
      }
      if changed {
        r := new State.Init(lpn, marking, nv, newTranVector);
        UpdateChangesIff(vector[..], newVector, varIndex);
      } else {
        r := null;
      }
    }
  }
}
