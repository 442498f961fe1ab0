/**
  `inheritors(klass)` from pcef/core/system.py: every class that inherits,
  directly or indirectly, from `klass`, found with a work list over
  `__subclasses__()`.  The class hierarchy is a finite graph from a class
  to the list of its direct subclasses.
 */
module Inheritors {

  type ClassId = nat

  /** Direct subclasses of each class; a class missing from the map has none. */
  type Hierarchy = map<ClassId, seq<ClassId>>

  /** `c.__subclasses__()`. */
  function Subclasses(g: Hierarchy, c: ClassId): seq<ClassId>
  {
    if c in g then g[c] else []
  }

  /** Every class that appears as somebody's direct subclass. */
  function AllSubclasses(g: Hierarchy): set<ClassId>
  {
    set c, i | c in g && 0 <= i < |g[c]| :: g[c][i]
  }

  /** `all` holds every class that is somebody's direct subclass. */
  ghost predicate Covers(g: Hierarchy, all: set<ClassId>)
  {
    forall c, i :: 0 <= i < |Subclasses(g, c)| ==> Subclasses(g, c)[i] in all
  }

  /** A finite set that holds every direct subclass; the loop of
      `inheritors` never finds a class outside it. */
  lemma CoverSet(g: Hierarchy) returns (all: set<ClassId>)
    ensures Covers(g, all)
  {
    all := AllSubclasses(g);
    forall c, i | 0 <= i < |Subclasses(g, c)|
      ensures Subclasses(g, c)[i] in all
    {
      assert c in g;
    }
  }

  lemma ChildrenCovered(g: Hierarchy, all: set<ClassId>, parent: ClassId)
    requires Covers(g, all)
    ensures forall c :: c in Subclasses(g, parent) ==> c in all
  {
    forall c | c in Subclasses(g, parent)
      ensures c in all
    {
      var i :| 0 <= i < |Subclasses(g, parent)| && Subclasses(g, parent)[i] == c;
    }
  }

  /** `p` is a chain of one or more subclass edges. */
  ghost predicate IsChain(g: Hierarchy, p: seq<ClassId>)
  {
    && |p| >= 2
    && forall i :: 0 <= i < |p| - 1 ==> p[i + 1] in Subclasses(g, p[i])
  }

  /** `x` inherits from `k`: some chain of one or more edges leads from `k` to `x`. */
  ghost predicate Inherits(g: Hierarchy, k: ClassId, x: ClassId)
  {
    exists p :: IsChain(g, p) && p[0] == k && p[|p| - 1] == x
  }

  /** A chain extended by one more edge is a chain. */
  lemma ExtendChain(g: Hierarchy, p: seq<ClassId>, c: ClassId)
    requires IsChain(g, p)
    requires c in Subclasses(g, p[|p| - 1])
    ensures IsChain(g, p + [c]) && (p + [c])[0] == p[0]
  {
  }

  /** A class reached by a chain from `k` lies in any set that contains
      `k`'s subclasses and is closed under taking subclasses. */
  lemma {:induction false} ChainEndsInClosed(g: Hierarchy, k: ClassId, p: seq<ClassId>, s: set<ClassId>)
    requires IsChain(g, p) && p[0] == k
    requires forall c :: c in Subclasses(g, k) ==> c in s
    requires forall x, c :: x in s && c in Subclasses(g, x) ==> c in s
    ensures p[|p| - 1] in s
    decreases |p|
  {
    if |p| > 2 {
      var q := p[..|p| - 1];
      assert IsChain(g, q) by {
        forall i | 0 <= i < |q| - 1
          ensures q[i + 1] in Subclasses(g, q[i])
        {
          assert q[i] == p[i] && q[i + 1] == p[i + 1];
        }
      }
      ChainEndsInClosed(g, k, q, s);
      assert p[|p| - 1] in Subclasses(g, p[|p| - 2]);
    }
  }

  /** What remains of a finite set after taking out a subset of it. */
  lemma RemainderSize(all: set<ClassId>, found: set<ClassId>)
    requires found <= all
    ensures |all - found| == |all| - |found|
  {
    assert all == (all - found) + found;
    assert (all - found) * found == {};
  }

  /** Each class found is pushed once, so the classes not yet found plus the
      length of the work list drop by one per popped entry. */
  lemma MeasureDrops(all: set<ClassId>, found: set<ClassId>, rest: seq<ClassId>,
                     found': set<ClassId>, work': seq<ClassId>)
    requires Grown(found, rest, found', work', all)
    ensures |all - found'| + |work'| < |all - found| + |rest| + 1
  {
    RemainderSize(all, found);
    RemainderSize(all, found');
  }

  /** `chain[x]` is a witness chain from `k` to `x` for every found class `x`. */
  ghost predicate Witnessed(g: Hierarchy, k: ClassId, found: set<ClassId>, chain: map<ClassId, seq<ClassId>>)
  {
    && chain.Keys == found
    && forall x :: x in chain ==> IsChain(g, chain[x]) && chain[x][0] == k && chain[x][|chain[x]| - 1] == x
  }

  /** Every entry of the work list is `k` or an already found class. */
  ghost predicate Pending(k: ClassId, work: seq<ClassId>, found: set<ClassId>)
  {
    forall i :: 0 <= i < |work| ==> work[i] == k || work[i] in found
  }

  /** Adding one new subclass of a found class (or of `k`) to the result
      and the work list keeps both predicates, with a chain one edge longer
      than the parent's as the new class's witness. */
  lemma AddOne(g: Hierarchy, k: ClassId, found: set<ClassId>, work: seq<ClassId>,
               chain: map<ClassId, seq<ClassId>>, parent: ClassId, child: ClassId)
    returns (chain': map<ClassId, seq<ClassId>>)
    requires parent == k || parent in found
    requires Witnessed(g, k, found, chain) && Pending(k, work, found)
    requires child in Subclasses(g, parent) && child !in found
    ensures Witnessed(g, k, found + {child}, chain') && Pending(k, work + [child], found + {child})
  {
    if parent == k {
      chain' := chain[child := [k, child]];
    } else {
      ExtendChain(g, chain[parent], child);
      chain' := chain[child := chain[parent] + [child]];
    }
  }

  /** From (`found`, `work`) to (`found'`, `work'`) the result only grew
      within `all`, the work list only grew at its end, and exactly the newly
      found classes were pushed, one entry each. */
  ghost predicate Grown(found: set<ClassId>, work: seq<ClassId>, found': set<ClassId>, work': seq<ClassId>,
                        all: set<ClassId>)
  {
    && found <= found' <= all
    && |work'| >= |work| && work'[..|work|] == work
    && (forall x :: x in found' - found ==> x in work')
    && |found'| - |found| == |work'| - |work|
  }

  lemma GrownAdd(found: set<ClassId>, work: seq<ClassId>, found': set<ClassId>, work': seq<ClassId>,
                 all: set<ClassId>, child: ClassId)
    requires Grown(found, work, found', work', all)
    requires child in all && child !in found'
    ensures Grown(found, work, found' + {child}, work' + [child], all)
  {
    assert (work' + [child])[..|work|] == work'[..|work|];
  }

  /** The inner loop of `inheritors`: adds each not yet found subclass of
      `parent` to the result and to the work list, in order. */
  method AddSubclasses(g: Hierarchy, k: ClassId, parent: ClassId, found: set<ClassId>, work: seq<ClassId>,
                       ghost all: set<ClassId>, ghost chain: map<ClassId, seq<ClassId>>)
    returns (found': set<ClassId>, work': seq<ClassId>, ghost chain': map<ClassId, seq<ClassId>>)
    requires parent == k || parent in found
    requires found <= all && forall c :: c in Subclasses(g, parent) ==> c in all
    requires Witnessed(g, k, found, chain) && Pending(k, work, found)
    ensures Grown(found, work, found', work', all)
    ensures Witnessed(g, k, found', chain') && Pending(k, work', found')
    ensures forall c :: c in Subclasses(g, parent) ==> c in found'
  {
    found', work', chain' := found, work, chain;
    var children := Subclasses(g, parent);
    var i := 0;
    while i < |children|
      invariant 0 <= i <= |children|
      invariant Grown(found, work, found', work', all)
      invariant Witnessed(g, k, found', chain') && Pending(k, work', found')
      invariant forall j :: 0 <= j < i ==> children[j] in found'
    {
      var child := children[i];
      if child !in found' {
        chain' := AddOne(g, k, found', work', chain', parent, child);
        GrownAdd(found, work, found', work', all, child);
        found' := found' + {child};
        work' := work' + [child];
      }
      i := i + 1;
    }
  }

  /** Every subclass of `k` and of every found class is found, except those
      of classes still waiting in the work list. */
  ghost predicate ClosedBut(g: Hierarchy, k: ClassId, found: set<ClassId>, work: seq<ClassId>)
  {
    && (forall c :: c in Subclasses(g, k) ==> c in found || k in work)
    && (forall x, c :: x in found && c in Subclasses(g, x) ==> c in found || x in work)
  }

  /** Popping `parent` and adding its subclasses keeps `ClosedBut`. */
  lemma ClosedAfterAdd(g: Hierarchy, k: ClassId, found: set<ClassId>, rest: seq<ClassId>, parent: ClassId,
                       found': set<ClassId>, work': seq<ClassId>, all: set<ClassId>)
    requires ClosedBut(g, k, found, rest + [parent])
    requires Grown(found, rest, found', work', all)
    requires forall c :: c in Subclasses(g, parent) ==> c in found'
    ensures ClosedBut(g, k, found', work')
  {
    forall c | c in Subclasses(g, k)
      ensures c in found' || k in work'
    {
      if c !in found' && parent != k {
        assert k in rest + [parent];
        var i :| 0 <= i < |rest| && rest[i] == k;
        assert work'[i] == k;
      }
    }
    forall x, c | x in found' && c in Subclasses(g, x)
      ensures c in found' || x in work'
    {
      if x in found && x != parent && c !in found {
        assert x in rest + [parent];
        var i :| 0 <= i < |rest| && rest[i] == x;
        assert work'[i] == x;
      }
    }
  }

  /** Every found class has a witness chain, so it inherits from `k`. */
  lemma WitnessedInherit(g: Hierarchy, k: ClassId, found: set<ClassId>, chain: map<ClassId, seq<ClassId>>)
    requires Witnessed(g, k, found, chain)
    ensures forall x :: x in found ==> Inherits(g, k, x)
  {
    forall x | x in found
      ensures Inherits(g, k, x)
    {
      assert IsChain(g, chain[x]) && chain[x][0] == k && chain[x][|chain[x]| - 1] == x;
    }
  }

  /** With an empty work list, every class inheriting from `k` is found. */
  lemma ClosedHoldsInheritors(g: Hierarchy, k: ClassId, found: set<ClassId>)
    requires ClosedBut(g, k, found, [])
    ensures forall x :: Inherits(g, k, x) ==> x in found
  {
    forall x | Inherits(g, k, x)
      ensures x in found
    {
      var p :| IsChain(g, p) && p[0] == k && p[|p| - 1] == x;
      ChainEndsInClosed(g, k, p, found);
    }
  }

  /** Popping the last entry of a non-empty work list. */
  lemma LastSplit(work: seq<ClassId>)
    requires |work| > 0
    ensures work == work[..|work| - 1] + [work[|work| - 1]]
  {
  }

  /** `inheritors(klass)`: the work-list closure.  It returns exactly the
      classes that inherit from `k` through one or more subclass edges. */
  method Inheritors(g: Hierarchy, k: ClassId) returns (subclasses: set<ClassId>)
    ensures forall x :: x in subclasses <==> Inherits(g, k, x)
  {
    subclasses := {};
    var work := [k];
    ghost var chain: map<ClassId, seq<ClassId>> := map[];
    ghost var all := CoverSet(g);
    while |work| > 0
      invariant subclasses <= all
      invariant Witnessed(g, k, subclasses, chain) && Pending(k, work, subclasses)
      invariant ClosedBut(g, k, subclasses, work)
      decreases |all - subclasses| + |work|
    {
      var parent := work[|work| - 1];
      var rest := work[..|work| - 1];
      LastSplit(work);
      ChildrenCovered(g, all, parent);
      var found', work';
      found', work', chain := AddSubclasses(g, k, parent, subclasses, rest, all, chain);
      MeasureDrops(all, subclasses, rest, found', work');
      ClosedAfterAdd(g, k, subclasses, rest, parent, found', work', all);
      subclasses, work := found', work';
    }
    WitnessedInherit(g, k, subclasses, chain);
    ClosedHoldsInheritors(g, k, subclasses);
  }
}
