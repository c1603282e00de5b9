/**
 * The generic structural queries of a factor graph: an ordered sequence of
 * factor slots, where an empty slot is a factor that was removed while its
 * position was kept. A factor is seen only through its scope (the keys it
 * constrains) and through a caller-supplied equality within a tolerance.
 */
module FactorGraphs {
  import opened Wrappers

  /** A variable identifier; only equality between keys is used. */
  type Key = nat

  /**
   * A factor: the keys it constrains, in its own order, and an opaque
   * identity standing for everything else about it (its measurement, its
   * noise model). Two factors over the same keys can thus differ.
   */
  datatype Factor = Factor(scope: seq<Key>, content: nat)

  /** The factor type's own `equals(other, tol)`, whose definition lies outside this model. */
  type FactorEquality = (Factor, Factor, real) -> bool

  /** A factor graph: its slots, numbered from 0; `None` marks a removed factor. */
  datatype FactorGraph = FactorGraph(factors: seq<Option<Factor>>)
  {
    /** Number of slots, empty ones included. */
    function Size(): nat { |factors| }
  }

  // ---------------------------------------------------------------------
  // equals

  /** Two slots agree when both are empty or both hold factors equal within tol. */
  predicate SlotsAgree(s1: Option<Factor>, s2: Option<Factor>, eq: FactorEquality, tol: real)
  {
    match (s1, s2)
    case (None, None) => true
    case (Some(f1), Some(f2)) => eq(f1, f2, tol)
    case _ => false
  }

  /** Positional equality: same number of slots, and the slots agree position by position. */
  predicate GraphsEqual(g: FactorGraph, h: FactorGraph, eq: FactorEquality, tol: real)
  {
    && g.Size() == h.Size()
    && forall i :: 0 <= i < g.Size() ==> SlotsAgree(g.factors[i], h.factors[i], eq, tol)
  }

  /** `FactorGraph::equals`: a scan with early exits on a size mismatch, a nullness mismatch or unequal factors. */
  method Equals(g: FactorGraph, h: FactorGraph, eq: FactorEquality, tol: real) returns (b: bool)
    ensures b <==> GraphsEqual(g, h, eq, tol)
    ensures g.Size() != h.Size() ==> !b
    ensures b ==> forall i :: 0 <= i < g.Size() ==> (g.factors[i].None? <==> h.factors[i].None?)
  {
    if |g.factors| != |h.factors| {
      return false;
    }
    for i := 0 to |g.factors|
      invariant forall j :: 0 <= j < i ==> SlotsAgree(g.factors[j], h.factors[j], eq, tol)
    {
      var f1, f2 := g.factors[i], h.factors[i];
      if f1.None? && f2.None? {
        continue;
      }
      if f1.None? || f2.None? {
        return false;
      }
      if !eq(f1.value, f2.value, tol) {
        return false;
      }
    }
    return true;
  }

  /**
   * Equality is positional: when the factor equality is reflexive on the
   * graph's factors the graph equals itself, yet exchanging two slots that do
   * not agree with each other keeps the same slots (the same multiset) and
   * makes the result unequal to the original.
   */
  lemma SwapBreaksEquality(g: FactorGraph, i: nat, j: nat, eq: FactorEquality, tol: real)
    requires i < j < g.Size()
    requires forall k :: 0 <= k < g.Size() && g.factors[k].Some? ==> eq(g.factors[k].value, g.factors[k].value, tol)
    requires !SlotsAgree(g.factors[i], g.factors[j], eq, tol)
    ensures GraphsEqual(g, g, eq, tol)
    ensures var h := FactorGraph(g.factors[i := g.factors[j]][j := g.factors[i]]);
      multiset(h.factors) == multiset(g.factors) && !GraphsEqual(g, h, eq, tol)
  {
  }

  /**
   * Two factors over the same keys that differ otherwise, compared by exact
   * identity: the graph equals itself, and exchanging them makes it unequal.
   */
  lemma SameScopeSwapBreaksEquality()
    ensures var eq: FactorEquality := (f1, f2, tol) => f1 == f2;
      var a, b := Factor([1, 2], 0), Factor([1, 2], 1);
      && GraphsEqual(FactorGraph([Some(a), Some(b)]), FactorGraph([Some(a), Some(b)]), eq, 0.0)
      && !GraphsEqual(FactorGraph([Some(a), Some(b)]), FactorGraph([Some(b), Some(a)]), eq, 0.0)
  {
    var eq: FactorEquality := (f1, f2, tol) => f1 == f2;
    var a, b := Factor([1, 2], 0), Factor([1, 2], 1);
    var g := FactorGraph([Some(a), Some(b)]);
    SwapBreaksEquality(g, 0, 1, eq, 0.0);
    assert g.factors[0 := g.factors[1]][1 := g.factors[0]] == [Some(b), Some(a)];
  }

  // ---------------------------------------------------------------------
  // nrFactors

  /** Number of non-empty slots, counted from the front. */
  function NonNullCount(slots: seq<Option<Factor>>): (n: nat)
    ensures n <= |slots|
    ensures n == |slots| <==> forall i :: 0 <= i < |slots| ==> slots[i].Some?
  {
    if slots == [] then 0
    else NonNullCount(slots[..|slots| - 1]) + (if slots[|slots| - 1].Some? then 1 else 0)
  }

  /** The positions of the non-empty slots. */
  function NonNullPositions(slots: seq<Option<Factor>>): set<nat>
  {
    set i: nat | i < |slots| && slots[i].Some?
  }

  /** The count is the number of positions that hold a factor. */
  lemma {:induction false} NonNullCountIsCardinality(slots: seq<Option<Factor>>)
    ensures NonNullCount(slots) == |NonNullPositions(slots)|
  {
    if slots != [] {
      var n := |slots| - 1;
      NonNullCountIsCardinality(slots[..n]);
      if slots[n].Some? {
        assert NonNullPositions(slots) == NonNullPositions(slots[..n]) + {n};
      } else {
        assert NonNullPositions(slots) == NonNullPositions(slots[..n]);
      }
    }
  }

  /** `FactorGraph::nrFactors`: counts the non-empty slots in one pass. */
  method NrFactors(g: FactorGraph) returns (n: nat)
    ensures n == NonNullCount(g.factors)
    ensures n == |NonNullPositions(g.factors)|
    ensures n <= g.Size()
    ensures g.Size() == 0 ==> n == 0
  {
    n := 0;
    for i := 0 to |g.factors|
      invariant n == NonNullCount(g.factors[..i])
    {
      assert g.factors[..i + 1][..i] == g.factors[..i];
      if g.factors[i].Some? {
        n := n + 1;
      }
    }
    assert g.factors[..|g.factors|] == g.factors;
    NonNullCountIsCardinality(g.factors);
  }

  // ---------------------------------------------------------------------
  // keys

  /** The keys a slot contributes: its factor's scope, or nothing for an empty slot. */
  function SlotKeys(s: Option<Factor>): set<Key>
  {
    if s.Some? then set k | k in s.value.scope else {}
  }

  /** The union of the scopes of the factors in the slots, gathered from the front. */
  function KeysOf(slots: seq<Option<Factor>>): set<Key>
  {
    if slots == [] then {}
    else KeysOf(slots[..|slots| - 1]) + SlotKeys(slots[|slots| - 1])
  }

  /** A key is among the graph's keys exactly when some factor's scope contains it. */
  lemma {:induction false} InKeysOf(slots: seq<Option<Factor>>, k: Key)
    ensures k in KeysOf(slots) <==>
      exists i :: 0 <= i < |slots| && slots[i].Some? && k in slots[i].value.scope
  {
    if slots != [] {
      var n := |slots| - 1;
      InKeysOf(slots[..n], k);
      if k in KeysOf(slots[..n]) {
        var i :| 0 <= i < n && slots[..n][i].Some? && k in slots[..n][i].value.scope;
        assert slots[i] == slots[..n][i];
      }
      if exists i :: 0 <= i < |slots| && slots[i].Some? && k in slots[i].value.scope {
        var i :| 0 <= i < |slots| && slots[i].Some? && k in slots[i].value.scope;
        if i < n {
          assert slots[..n][i] == slots[i];
        }
      }
    }
  }

  /** `FactorGraph::keys`: inserts the scope of every non-empty slot into a set. */
  method Keys(g: FactorGraph) returns (allKeys: set<Key>)
    ensures allKeys == KeysOf(g.factors)
    ensures forall k :: k in allKeys <==>
      exists i :: 0 <= i < g.Size() && g.factors[i].Some? && k in g.factors[i].value.scope
  {
    allKeys := {};
    for i := 0 to |g.factors|
      invariant allKeys == KeysOf(g.factors[..i])
    {
      assert g.factors[..i + 1][..i] == g.factors[..i];
      if g.factors[i].Some? {
        var scope := g.factors[i].value.scope;
        for j := 0 to |scope|
          invariant allKeys == KeysOf(g.factors[..i]) + set k | k in scope[..j]
        {
          assert scope[..j + 1] == scope[..j] + [scope[j]];
          allKeys := allKeys + {scope[j]};
        }
        assert scope[..|scope|] == scope;
      }
    }
    assert g.factors[..|g.factors|] == g.factors;
    forall k
      ensures k in allKeys <==>
        exists i :: 0 <= i < g.Size() && g.factors[i].Some? && k in g.factors[i].value.scope
    {
      InKeysOf(g.factors, k);
    }
  }

  /** The keys of a concatenation are the union of the keys of the parts. */
  lemma {:induction false} KeysOfAppend(a: seq<Option<Factor>>, b: seq<Option<Factor>>)
    ensures KeysOf(a + b) == KeysOf(a) + KeysOf(b)
  {
    if b == [] {
      assert a + b == a;
    } else {
      var n := |b| - 1;
      assert (a + b)[..|a + b| - 1] == a + b[..n];
      KeysOfAppend(a, b[..n]);
    }
  }

  /** An empty slot contributes no key, wherever it stands. */
  lemma KeysIgnoreEmptySlot(a: seq<Option<Factor>>, b: seq<Option<Factor>>)
    ensures KeysOf(a + [None] + b) == KeysOf(a + b)
  {
    KeysOfAppend(a + [None], b);
    KeysOfAppend(a, b);
    assert (a + [None])[..|a|] == a;
  }

  /** A graph with no factor in any slot has no keys. */
  lemma {:induction false} KeysOfNoFactors(slots: seq<Option<Factor>>)
    requires forall i :: 0 <= i < |slots| ==> slots[i].None?
    ensures KeysOf(slots) == {}
  {
    if slots != [] {
      KeysOfNoFactors(slots[..|slots| - 1]);
    }
  }

  /** The key set does not depend on the order of the slots. */
  lemma KeysOfPermutation(a: seq<Option<Factor>>, b: seq<Option<Factor>>)
    requires multiset(a) == multiset(b)
    ensures KeysOf(a) == KeysOf(b)
  {
    forall k ensures k in KeysOf(a) ==> k in KeysOf(b) {
      KeysOfSubset(a, b, k);
    }
    forall k ensures k in KeysOf(b) ==> k in KeysOf(a) {
      KeysOfSubset(b, a, k);
    }
  }

  lemma KeysOfSubset(a: seq<Option<Factor>>, b: seq<Option<Factor>>, k: Key)
    requires multiset(a) == multiset(b)
    ensures k in KeysOf(a) ==> k in KeysOf(b)
  {
    InKeysOf(a, k);
    InKeysOf(b, k);
    if k in KeysOf(a) {
      var i :| 0 <= i < |a| && a[i].Some? && k in a[i].value.scope;
      assert a[i] in multiset(b);
      var j :| 0 <= j < |b| && b[j] == a[i];
    }
  }

  /** Three slots, the middle one empty: two factors over keys {1, 2} and {2}. */
  lemma ThreeSlotExample()
    ensures var g := [Some(Factor([1, 2], 0)), None, Some(Factor([2], 1))];
      NonNullCount(g) == 2 && KeysOf(g) == {1, 2}
  {
    var g := [Some(Factor([1, 2], 0)), None, Some(Factor([2], 1))];
    assert g[..2] == [Some(Factor([1, 2], 0)), None];
    assert g[..2][..1] == [Some(Factor([1, 2], 0))];
    assert g[..2][..1][..0] == [];
    assert SlotKeys(g[0]) == {1, 2} by {
      assert forall k :: k in [1, 2] <==> k == 1 || k == 2;
    }
    assert SlotKeys(g[2]) == {2};
    assert KeysOf(g[..2][..1]) == {1, 2};
    assert KeysOf(g[..2]) == {1, 2};
  }
}
