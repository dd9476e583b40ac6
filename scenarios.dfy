/**
  Small concrete heaps on which the deep size is worked out by hand: a
  two-node cycle, a shared reference, an array of references with a null
  element, and a field whose read throws.
 */
module Scenarios {
  import opened JavaHeap
  import opened Reachability
  import opened ShallowSizes
  import opened ObjectSizeUtilModel

  /** java.lang.Object, a linked node, a pair, Object[] and int[], in load order. */
  const Classes: ClassTable := map[
    0 := ClassInfo([], None, NotArray),
    1 := ClassInfo(["next"], Some(0), NotArray),
    2 := ClassInfo(["left", "right"], Some(0), NotArray),
    3 := ClassInfo([], Some(0), ReferenceComponent),
    4 := ClassInfo([], Some(0), PrimitiveComponent)
  ]

  /** Every superclass in `Classes` is java.lang.Object, loaded first. */
  lemma ClassesValid()
    ensures ValidClassTable(Classes)
  {
    forall c | c in Classes && Classes[c].superclass.Some?
      ensures Classes[c].superclass.value < c && Classes[c].superclass.value in Classes
    {
      assert c == 1 || c == 2 || c == 3 || c == 4;
    }
  }

  function Node(next: Slot): Obj {
    Obj(1, [], map[FieldRef(1, "next") := next])
  }

  function Pair(left: Slot, right: Slot): Obj {
    Obj(2, [], map[FieldRef(2, "left") := left, FieldRef(2, "right") := right])
  }

  const Plain: Obj := Obj(0, [], map[])

  lemma SumOfTwo(a: Ref, b: Ref, instr: Option<Instrumentation>)
    requires a != b
    ensures SumShallow({a, b}, instr) == ShallowSize(instr, a) + ShallowSize(instr, b)
  {
    SumShallowInsert({}, a, instr);
    assert {} + {a} == {a};
    SumShallowInsert({a}, b, instr);
    assert {a} + {b} == {a, b};
  }

  lemma SumOfThree(a: Ref, b: Ref, c: Ref, instr: Option<Instrumentation>)
    requires a != b && a != c && b != c
    ensures SumShallow({a, b, c}, instr) ==
      ShallowSize(instr, a) + ShallowSize(instr, b) + ShallowSize(instr, c)
  {
    SumOfTwo(a, b, instr);
    SumShallowInsert({a, b}, c, instr);
    assert {a, b} + {c} == {a, b, c};
  }

  /**
    A root `a` that pushes `b`, where neither pushes anything outside
    `{a, b}` (nulls aside), has deep size the shallow sizes of `a` and `b`.
   */
  lemma ReachesTwo(h: Heap, ct: ClassTable, a: Ref, b: Ref, instr: Option<Instrumentation>)
    requires ValidHeap(h, ct) && a in h && b in h && a != b
    requires Some(b) in Pushed(h, ct, a)
    requires forall v :: v in Pushed(h, ct, a) ==> v in {None, Some(a), Some(b)}
    requires forall v :: v in Pushed(h, ct, b) ==> v in {None, Some(a), Some(b)}
    ensures DeepSize(h, ct, Some(a), instr) == ShallowSize(instr, a) + ShallowSize(instr, b)
  {
    RootReachable(h, ct, a);
    ReachableStep(h, ct, Some(a), a, b);
    forall x: Ref, y: Ref | x in {a, b} && Edge(h, ct, x, y)
      ensures y in {a, b}
    {
      assert Some(y) in Pushed(h, ct, x);
    }
    ReachableExactly(h, ct, a, {a, b});
    SumOfTwo(a, b, instr);
  }

  /** A root `a` that pushes only `b`, `c` and nulls, where `b` and `c` push nothing, keeps the walk inside `{a, b, c}`. */
  lemma ThreeClosed(h: Heap, ct: ClassTable, a: Ref, b: Ref, c: Ref)
    requires ValidHeap(h, ct) && a in h && b in h && c in h
    requires forall v :: v in Pushed(h, ct, a) ==> v in {None, Some(b), Some(c)}
    requires Pushed(h, ct, b) == [] && Pushed(h, ct, c) == []
    ensures ClosedFrom(h, ct, a, {a, b, c})
  {
    forall x: Ref, y: Ref | x in {a, b, c} && Edge(h, ct, x, y)
      ensures y in {a, b, c}
    {
      assert Some(y) in Pushed(h, ct, x);
    }
  }

  /** A root that pushes `b` and `c` reaches both. */
  lemma ThreeReachable(h: Heap, ct: ClassTable, a: Ref, b: Ref, c: Ref)
    requires ValidHeap(h, ct) && a in h
    requires Edge(h, ct, a, b) && Edge(h, ct, a, c)
    ensures forall x :: x in {a, b, c} ==> x in Reachable(h, ct, Some(a))
  {
    RootReachable(h, ct, a);
    ReachableStep(h, ct, Some(a), a, b);
    ReachableStep(h, ct, Some(a), a, c);
  }

  /** Two nodes pointing at each other: each is sized once and the walk stops. */
  lemma CycleCountsEachOnce(instr: Option<Instrumentation>)
    ensures DeepSize(map[1 := Node(Holds(2)), 2 := Node(Holds(1))], Classes, Some(1), instr) ==
      ShallowSize(instr, 1) + ShallowSize(instr, 2)
  {
    var h := map[1 := Node(Holds(2)), 2 := Node(Holds(1))];
    assert Pushed(h, Classes, 1) == [Some(2)];
    assert Pushed(h, Classes, 2) == [Some(1)];
    ReachesTwo(h, Classes, 1, 2, instr);
  }

  /** The cycle, and the same two nodes with the closing reference set to null. */
  const Cycle: Heap := map[1 := Node(Holds(2)), 2 := Node(Holds(1))]
  const Chain: Heap := map[1 := Node(Holds(2)), 2 := Node(Null)]

  /** Both heaps are closed: each node's reference points at the other node. */
  lemma CycleAndChainValid()
    ensures ValidHeap(Cycle, Classes) && ValidHeap(Chain, Classes)
  {
    ClassesValid();
    assert ObjClosed(Cycle, Classes, Node(Holds(2))) && ObjClosed(Cycle, Classes, Node(Holds(1)));
    assert ObjClosed(Chain, Classes, Node(Holds(2))) && ObjClosed(Chain, Classes, Node(Null));
  }

  /** What visiting each node pushes in either heap. */
  lemma CycleAndChainPushes()
    requires ValidClassTable(Classes)
    ensures Pushed(Cycle, Classes, 1) == [Some(2)] && Pushed(Cycle, Classes, 2) == [Some(1)]
    ensures Pushed(Chain, Classes, 1) == [Some(2)] && Pushed(Chain, Classes, 2) == []
  {
    assert FieldValues(Classes, Node(Holds(2)), 1) == [Some(2)];
    assert FieldValues(Classes, Node(Holds(1)), 1) == [Some(1)];
    assert FieldValues(Classes, Node(Null), 1) == [];
  }

  /** The chain has every edge of the cycle except `2 -> 1`, and no other. */
  lemma CycleAndChainEdges()
    requires ValidClassTable(Classes)
    ensures forall a, b :: Edge(Chain, Classes, a, b) ==> Edge(Cycle, Classes, a, b)
    ensures forall a, b :: Edge(Cycle, Classes, a, b) ==> Edge(Chain, Classes, a, b) || (a == 2 && b == 1)
  {
    CycleAndChainPushes();
  }

  /** Removing the edge that closes the cycle leaves the deep size unchanged. */
  lemma CycleEdgeChangesNothing(instr: Option<Instrumentation>)
    ensures DeepSize(Cycle, Classes, Some(1), instr) == DeepSize(Chain, Classes, Some(1), instr)
  {
    CycleAndChainValid();
    ClassesValid();
    CycleAndChainEdges();
    RootReachable(Chain, Classes, 1);
    RedundantEdgeDeepSize(Cycle, Chain, Classes, 1, 2, 1, instr);
  }

  /** The field walk over a pair reads `left` first, then `right`, then nothing in java.lang.Object. */
  lemma PairPushes(left: Slot, right: Slot)
    ensures FieldValues(Classes, Pair(left, right), 2) ==
      (if left.Holds? then [Some(left.target)] else []) +
      (if right.Holds? then [Some(right.target)] else [])
  {
    var o := Pair(left, right);
    var names := ["left", "right"];
    assert names[..1] == ["left"];
    assert ["left"][..0] == [];
    assert DeclaredValues(o, 2, ["left"]) == if left.Holds? then [Some(left.target)] else [];
    assert FieldValues(Classes, o, 0) == [];
  }

  /** Both fields of a pair refer to the same object: it is sized once. */
  lemma SharedReferenceCountedOnce(instr: Option<Instrumentation>)
    ensures DeepSize(map[1 := Pair(Holds(2), Holds(2)), 2 := Plain], Classes, Some(1), instr) ==
      ShallowSize(instr, 1) + ShallowSize(instr, 2)
  {
    var h := map[1 := Pair(Holds(2), Holds(2)), 2 := Plain];
    PairPushes(Holds(2), Holds(2));
    assert Pushed(h, Classes, 1) == [Some(2), Some(2)];
    assert Pushed(h, Classes, 2) == [];
    ReachesTwo(h, Classes, 1, 2, instr);
  }

  /** An Object[] holding two objects and a null: the array and both objects are sized. */
  lemma ReferenceArrayCountsElements(instr: Option<Instrumentation>)
    ensures DeepSize(map[1 := Obj(3, [Some(2), Some(3), None], map[]), 2 := Plain, 3 := Plain],
                     Classes, Some(1), instr) ==
      ShallowSize(instr, 1) + ShallowSize(instr, 2) + ShallowSize(instr, 3)
  {
    var h := map[1 := Obj(3, [Some(2), Some(3), None], map[]), 2 := Plain, 3 := Plain];
    assert Pushed(h, Classes, 1) == [Some(2), Some(3), None];
    assert Pushed(h, Classes, 2) == [];
    assert Pushed(h, Classes, 3) == [];
    ThreeClosed(h, Classes, 1, 2, 3);
    ThreeReachable(h, Classes, 1, 2, 3);
    ReachableExactly(h, Classes, 1, {1, 2, 3});
    SumOfThree(1, 2, 3, instr);
  }

  /** An int[] is sized on its own: its elements are never followed. */
  lemma PrimitiveArrayAlone(instr: Option<Instrumentation>)
    ensures DeepSize(map[1 := Obj(4, [Some(2)], map[]), 2 := Plain], Classes, Some(1), instr) ==
      ShallowSize(instr, 1)
  {
    var h := map[1 := Obj(4, [Some(2)], map[]), 2 := Plain];
    assert ValidHeap(h, Classes);
    assert SuperChain(Classes, 4) == [4, 0];
    PrimitiveArrayDeepSize(h, Classes, 1, instr);
  }

  /** A field whose read throws is skipped; the other field is still followed. */
  lemma ThrowingFieldSkipped(instr: Option<Instrumentation>)
    ensures DeepSize(map[1 := Pair(Throws, Holds(2)), 2 := Plain, 3 := Plain], Classes, Some(1), instr) ==
      ShallowSize(instr, 1) + ShallowSize(instr, 2)
  {
    var h := map[1 := Pair(Throws, Holds(2)), 2 := Plain, 3 := Plain];
    PairPushes(Throws, Holds(2));
    assert Pushed(h, Classes, 1) == [Some(2)];
    assert Pushed(h, Classes, 2) == [];
    ReachesTwo(h, Classes, 1, 2, instr);
  }
}
