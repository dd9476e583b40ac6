/**
  Which objects the deep-size walk can reach from a root: those at the end of
  a chain of `Edge` steps, an edge being a reference that visiting an object
  pushes onto the stack.
 */
module Reachability {
  import opened JavaHeap

  /** `p` is a chain of pushed references inside the heap. */
  ghost predicate IsPath(h: Heap, ct: ClassTable, p: seq<Ref>)
    requires ValidClassTable(ct)
  {
    |p| > 0 && p[|p| - 1] in h &&
    forall i :: 0 <= i < |p| - 1 ==> Edge(h, ct, p[i], p[i + 1])
  }

  /** The non-null objects reachable from `root` (nothing when `root` is null). */
  ghost function Reachable(h: Heap, ct: ClassTable, root: Option<Ref>): set<Ref>
    requires ValidClassTable(ct)
  {
    set x | x in h && root.Some? && exists p :: IsPath(h, ct, p) && p[0] == root.value && p[|p| - 1] == x
  }

  /** A set that holds `root` and every reference pushed by its members is closed. */
  ghost predicate ClosedFrom(h: Heap, ct: ClassTable, root: Ref, s: set<Ref>)
    requires ValidClassTable(ct)
  {
    root in s && forall x, y :: x in s && Edge(h, ct, x, y) ==> y in s
  }

  /** A non-null root in the heap reaches itself. */
  lemma RootReachable(h: Heap, ct: ClassTable, r: Ref)
    requires ValidClassTable(ct) && r in h
    ensures r in Reachable(h, ct, Some(r))
  {
    assert IsPath(h, ct, [r]);
  }

  /** Whatever a reachable object pushes is reachable too. */
  lemma ReachableStep(h: Heap, ct: ClassTable, root: Option<Ref>, x: Ref, y: Ref)
    requires ValidHeap(h, ct)
    requires x in Reachable(h, ct, root) && Edge(h, ct, x, y)
    ensures y in Reachable(h, ct, root)
  {
    PushedInHeap(h, ct, x, y);
    var p :| IsPath(h, ct, p) && p[0] == root.value && p[|p| - 1] == x;
    var q := p + [y];
    assert forall i :: 0 <= i < |p| ==> q[i] == p[i];
    assert IsPath(h, ct, q);
  }

  /** A path that starts inside a closed set never leaves it. */
  lemma {:induction false} PathStaysInside(h: Heap, ct: ClassTable, root: Ref, s: set<Ref>, p: seq<Ref>)
    requires ValidClassTable(ct) && ClosedFrom(h, ct, root, s)
    requires IsPath(h, ct, p) && p[0] in s
    ensures p[|p| - 1] in s
    decreases |p|
  {
    if |p| > 1 {
      var init := p[..|p| - 1];
      assert Edge(h, ct, p[|p| - 2], p[|p| - 1]);
      assert IsPath(h, ct, init);
      PathStaysInside(h, ct, root, s, init);
    }
  }

  /** `Reachable` is the least closed set: every closed set holding the root holds all of it. */
  lemma ClosedContainsReachable(h: Heap, ct: ClassTable, root: Ref, s: set<Ref>)
    requires ValidClassTable(ct) && ClosedFrom(h, ct, root, s)
    ensures Reachable(h, ct, Some(root)) <= s
  {
    forall x | x in Reachable(h, ct, Some(root))
      ensures x in s
    {
      var p :| IsPath(h, ct, p) && p[0] == root && p[|p| - 1] == x;
      PathStaysInside(h, ct, root, s, p);
    }
  }

  /** The reachable set of a non-null root is itself closed. */
  lemma ReachableIsClosed(h: Heap, ct: ClassTable, root: Ref)
    requires ValidHeap(h, ct) && root in h
    ensures ClosedFrom(h, ct, root, Reachable(h, ct, Some(root)))
  {
    RootReachable(h, ct, root);
    forall x, y | x in Reachable(h, ct, Some(root)) && Edge(h, ct, x, y)
      ensures y in Reachable(h, ct, Some(root))
    {
      ReachableStep(h, ct, Some(root), x, y);
    }
  }

  /** A null root reaches nothing. */
  lemma NullReachesNothing(h: Heap, ct: ClassTable)
    requires ValidClassTable(ct)
    ensures Reachable(h, ct, None) == {}
  {
  }

  /** A closed set all of whose members are reachable is exactly the reachable set. */
  lemma ReachableExactly(h: Heap, ct: ClassTable, root: Ref, s: set<Ref>)
    requires ValidClassTable(ct) && ClosedFrom(h, ct, root, s)
    requires forall x :: x in s ==> x in Reachable(h, ct, Some(root))
    ensures Reachable(h, ct, Some(root)) == s
  {
    ClosedContainsReachable(h, ct, root, s);
  }

  /** Two heaps with the same objects and the same edges reach the same objects. */
  lemma SameEdgesSameReachable(h1: Heap, h2: Heap, ct: ClassTable, root: Option<Ref>)
    requires ValidClassTable(ct) && h1.Keys == h2.Keys
    requires forall x, y :: Edge(h1, ct, x, y) <==> Edge(h2, ct, x, y)
    ensures Reachable(h1, ct, root) == Reachable(h2, ct, root)
  {
    forall p | IsPath(h1, ct, p) ensures IsPath(h2, ct, p) {
      assert forall i :: 0 <= i < |p| - 1 ==> Edge(h1, ct, p[i], p[i + 1]);
    }
    forall p | IsPath(h2, ct, p) ensures IsPath(h1, ct, p) {
      assert forall i :: 0 <= i < |p| - 1 ==> Edge(h2, ct, p[i], p[i + 1]);
    }
  }

  /**
    Dropping one edge `x -> y` whose target stays reachable without it (as
    the edge closing a cycle does) leaves the reachable set unchanged.
   */
  lemma RedundantEdgeReachable(h: Heap, h': Heap, ct: ClassTable, root: Ref, x: Ref, y: Ref)
    requires ValidHeap(h, ct) && ValidHeap(h', ct) && h'.Keys == h.Keys && root in h
    requires forall a, b :: Edge(h', ct, a, b) ==> Edge(h, ct, a, b)
    requires forall a, b :: Edge(h, ct, a, b) ==> Edge(h', ct, a, b) || (a == x && b == y)
    requires y in Reachable(h', ct, Some(root))
    ensures Reachable(h, ct, Some(root)) == Reachable(h', ct, Some(root))
  {
    ReachableIsClosed(h, ct, root);
    ReachableIsClosed(h', ct, root);
    assert ClosedFrom(h', ct, root, Reachable(h, ct, Some(root)));
    assert ClosedFrom(h, ct, root, Reachable(h', ct, Some(root)));
    ClosedContainsReachable(h', ct, root, Reachable(h, ct, Some(root)));
    ClosedContainsReachable(h, ct, root, Reachable(h', ct, Some(root)));
  }
}
