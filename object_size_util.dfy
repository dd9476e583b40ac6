/**
  The utility class itself: the registered Instrumentation, the set of
  already-checked objects, the shallow-size query and the deep-size walk.
 */
module ObjectSizeUtilModel {
  import opened JavaHeap
  import opened Reachability
  import opened ShallowSizes

  /** The deep size the walk promises: shallow sizes of all reachable objects, each once. */
  ghost function DeepSize(h: Heap, ct: ClassTable, root: Option<Ref>, instr: Option<Instrumentation>): nat
    requires ValidClassTable(ct)
  {
    SumShallow(Reachable(h, ct, root), instr)
  }

  /** A null root has deep size 0: nothing is reachable from it. */
  lemma DeepSizeOfNull(h: Heap, ct: ClassTable, instr: Option<Instrumentation>)
    requires ValidClassTable(ct)
    ensures DeepSize(h, ct, None, instr) == 0
  {
    NullReachesNothing(h, ct);
  }

  /** While no Instrumentation is registered, every deep size is 0. */
  lemma DeepSizeWithoutInstrumentation(h: Heap, ct: ClassTable, root: Option<Ref>)
    requires ValidClassTable(ct)
    ensures DeepSize(h, ct, root, None) == 0
  {
    SumShallowWithoutInstrumentation(Reachable(h, ct, root));
  }

  /**
    Removing a reference whose target is still reachable without it (the
    reference that closes a cycle) leaves the deep size unchanged.
   */
  lemma RedundantEdgeDeepSize(h: Heap, h': Heap, ct: ClassTable, root: Ref, x: Ref, y: Ref,
                              instr: Option<Instrumentation>)
    requires ValidHeap(h, ct) && ValidHeap(h', ct) && h'.Keys == h.Keys && root in h
    requires forall a, b :: Edge(h', ct, a, b) ==> Edge(h, ct, a, b)
    requires forall a, b :: Edge(h, ct, a, b) ==> Edge(h', ct, a, b) || (a == x && b == y)
    requires y in Reachable(h', ct, Some(root))
    ensures DeepSize(h, ct, Some(root), instr) == DeepSize(h', ct, Some(root), instr)
  {
    RedundantEdgeReachable(h, h', ct, root, x, y);
  }

  /** An object that pushes nothing but possibly itself has its own shallow size as deep size. */
  lemma LeafDeepSize(h: Heap, ct: ClassTable, r: Ref, instr: Option<Instrumentation>)
    requires ValidHeap(h, ct) && r in h
    requires forall y :: Edge(h, ct, r, y) ==> y == r
    ensures Reachable(h, ct, Some(r)) == {r}
    ensures DeepSize(h, ct, Some(r), instr) == ShallowSize(instr, r)
  {
    RootReachable(h, ct, r);
    ReachableExactly(h, ct, r, {r});
    SumShallowInsert({}, r, instr);
    assert {} + {r} == {r};
  }

  /**
    An array of a primitive component type whose class chain declares no
    fields (as for int[], whose superclass java.lang.Object declares none)
    has exactly its own shallow size as deep size, whatever its elements.
   */
  lemma PrimitiveArrayDeepSize(h: Heap, ct: ClassTable, r: Ref, instr: Option<Instrumentation>)
    requires ValidHeap(h, ct) && r in h
    requires ct[h[r].cls].component == PrimitiveComponent
    requires forall d :: d in SuperChain(ct, h[r].cls) ==> ct[d].declaredFields == []
    ensures DeepSize(h, ct, Some(r), instr) == ShallowSize(instr, r)
  {
    NoDeclaredFieldsNothingRead(ct, h[r], h[r].cls);
    assert Pushed(h, ct, r) == [];
    LeafDeepSize(h, ct, r, instr);
  }

  /** The elements of a primitive array never matter: replacing them leaves every deep size unchanged. */
  lemma PrimitiveElementsIgnored(h: Heap, ct: ClassTable, r: Ref, elems: seq<Option<Ref>>,
                                 root: Option<Ref>, instr: Option<Instrumentation>)
    requires ValidClassTable(ct) && r in h && h[r].cls in ct
    requires ct[h[r].cls].component == PrimitiveComponent
    ensures DeepSize(h[r := h[r].(elements := elems)], ct, root, instr) == DeepSize(h, ct, root, instr)
  {
    var h' := h[r := h[r].(elements := elems)];
    assert h'.Keys == h.Keys;
    forall x, y
      ensures Edge(h', ct, x, y) <==> Edge(h, ct, x, y)
    {
      if x == r {
        FieldValuesReadOnlySlots(ct, h'[r], h[r], h[r].cls);
      }
    }
    SameEdgesSameReachable(h', h, ct, root);
  }

  /** Every non-null reference on the stack is reachable. */
  ghost predicate StackWithin(stack: seq<Option<Ref>>, reach: set<Ref>) {
    forall y :: Some(y) in stack ==> y in reach
  }

  /** Whatever a checked object pushes is checked already or still waiting on the stack. */
  ghost predicate Frontier(h: Heap, ct: ClassTable, checked: set<Ref>, stack: seq<Option<Ref>>)
    requires ValidClassTable(ct)
  {
    forall x, y :: x in checked && Edge(h, ct, x, y) ==> y in checked || Some(y) in stack
  }

  /** Popping null or an already checked object keeps the frontier. */
  lemma SkipKeepsFrontier(h: Heap, ct: ClassTable, checked: set<Ref>, rest: seq<Option<Ref>>, tmp: Option<Ref>)
    requires ValidClassTable(ct) && Frontier(h, ct, checked, rest + [tmp])
    requires tmp.Some? ==> tmp.value in checked
    ensures Frontier(h, ct, checked, rest)
  {
    forall x: Ref, y: Ref | x in checked && Edge(h, ct, x, y) && y !in checked
      ensures Some(y) in rest
    {
      assert Some(y) in rest + [tmp];
    }
  }

  /** Checking `t` and pushing what it refers to keeps the frontier. */
  lemma VisitKeepsFrontier(h: Heap, ct: ClassTable, checked: set<Ref>, rest: seq<Option<Ref>>, t: Ref)
    requires ValidClassTable(ct) && t in h && h[t].cls in ct
    requires Frontier(h, ct, checked, rest + [Some(t)])
    ensures Frontier(h, ct, checked + {t}, rest + Pushed(h, ct, t))
  {
    forall x: Ref, y: Ref | x in checked + {t} && Edge(h, ct, x, y) && y !in checked + {t}
      ensures Some(y) in rest + Pushed(h, ct, t)
    {
      if x != t {
        assert Some(y) in rest + [Some(t)];
      }
    }
  }

  /** Pushing what a reachable object refers to keeps the stack within the reachable set. */
  lemma VisitKeepsStackWithin(h: Heap, ct: ClassTable, root: Option<Ref>, rest: seq<Option<Ref>>, t: Ref)
    requires ValidHeap(h, ct) && t in Reachable(h, ct, root)
    requires StackWithin(rest, Reachable(h, ct, root))
    ensures StackWithin(rest + Pushed(h, ct, t), Reachable(h, ct, root))
  {
    forall y | Some(y) in rest + Pushed(h, ct, t)
      ensures y in Reachable(h, ct, root)
    {
      if Some(y) !in rest {
        assert Edge(h, ct, t, y);
        ReachableStep(h, ct, root, t, y);
      }
    }
  }

  /**
    What the walk keeps true at the head of its loop: everything checked or
    stacked is reachable, the root has been checked or is still stacked, and
    whatever a checked object pushes is checked or still stacked.
   */
  ghost predicate WalkInvariant(h: Heap, ct: ClassTable, root: Option<Ref>, checked: set<Ref>, stack: seq<Option<Ref>>)
    requires ValidClassTable(ct)
  {
    && checked <= Reachable(h, ct, root)
    && StackWithin(stack, Reachable(h, ct, root))
    && (root.Some? ==> root.value in checked || root in stack)
    && Frontier(h, ct, checked, stack)
  }

  /**
    The full loop invariant: `WalkInvariant`, plus the running total is the
    sum of the shallow sizes of the checked objects in the order they were
    checked, each of them listed once.
   */
  ghost predicate Walking(h: Heap, ct: ClassTable, root: Option<Ref>, instr: Option<Instrumentation>,
                          checked: set<Ref>, stack: seq<Option<Ref>>, visits: seq<Ref>, size: nat)
    requires ValidClassTable(ct)
  {
    && WalkInvariant(h, ct, root, checked, stack)
    && checked <= h.Keys
    && ListsOnce(visits, checked)
    && size == SumInOrder(visits, instr)
  }

  /** The walk starts with nothing checked, nothing added and the root alone on the stack. */
  lemma WalkStarts(h: Heap, ct: ClassTable, root: Option<Ref>, instr: Option<Instrumentation>)
    requires ValidHeap(h, ct) && (root.Some? ==> root.value in h)
    ensures Walking(h, ct, root, instr, {}, [root], [], 0)
  {
    if root.Some? {
      RootReachable(h, ct, root.value);
    }
  }

  /** Popping null or an already checked object keeps the invariant and adds nothing. */
  lemma WalkSkips(h: Heap, ct: ClassTable, root: Option<Ref>, instr: Option<Instrumentation>,
                  checked: set<Ref>, rest: seq<Option<Ref>>, tmp: Option<Ref>, visits: seq<Ref>, size: nat)
    requires ValidHeap(h, ct) && Walking(h, ct, root, instr, checked, rest + [tmp], visits, size)
    requires tmp.Some? ==> tmp.value in checked
    ensures Walking(h, ct, root, instr, checked, rest, visits, size)
  {
    SkipKeepsFrontier(h, ct, checked, rest, tmp);
  }

  /**
    Popping an object `t` not checked yet, adding its shallow size, checking
    it and pushing what it refers to keeps the invariant, and leaves fewer
    unchecked heap objects.
   */
  lemma WalkVisits(h: Heap, ct: ClassTable, root: Option<Ref>, instr: Option<Instrumentation>,
                   checked: set<Ref>, rest: seq<Option<Ref>>, t: Ref, visits: seq<Ref>, size: nat)
    requires ValidHeap(h, ct) && Walking(h, ct, root, instr, checked, rest + [Some(t)], visits, size)
    requires t !in checked
    ensures t in h && h[t].cls in ct
    ensures Walking(h, ct, root, instr, checked + {t}, rest + Pushed(h, ct, t), visits + [t], size + ShallowSize(instr, t))
    ensures |h.Keys - (checked + {t})| < |h.Keys - checked|
  {
    var reach := Reachable(h, ct, root);
    assert Some(t) in rest + [Some(t)];
    assert t in reach && t in h;
    VisitKeepsFrontier(h, ct, checked, rest, t);
    VisitKeepsStackWithin(h, ct, root, rest, t);
    if root.Some? && root.value !in checked + {t} {
      assert root in rest;
    }
    ListsOnceAppend(visits, checked, t);
    SumInOrderAppend(visits, t, instr);
    assert h.Keys - checked == (h.Keys - (checked + {t})) + {t};
  }

  /**
    When the stack is empty, the checked objects are exactly the reachable
    ones and the running total is their deep size.
   */
  lemma WalkEnds(h: Heap, ct: ClassTable, root: Option<Ref>, instr: Option<Instrumentation>,
                 checked: set<Ref>, visits: seq<Ref>, size: nat)
    requires ValidHeap(h, ct) && Walking(h, ct, root, instr, checked, [], visits, size)
    ensures checked == Reachable(h, ct, root)
    ensures size == DeepSize(h, ct, root, instr)
  {
    if root.Some? {
      ClosedContainsReachable(h, ct, root.value, checked);
    }
    SumInOrderIsSumShallow(visits, checked, instr);
  }

  /** Popping splits the stack into the rest and its top. */
  lemma PopSplits(stack: seq<Option<Ref>>)
    requires stack != []
    ensures stack == stack[..|stack| - 1] + [stack[|stack| - 1]]
  {
  }

  /** Pushes every element of `o` when it is an array with a non-primitive component type. */
  method PushArrayElements(ct: ClassTable, o: Obj, stack: seq<Option<Ref>>) returns (pushed: seq<Option<Ref>>)
    requires o.cls in ct
    ensures pushed == stack + ArrayElements(ct, o)
  {
    pushed := stack;
    if ct[o.cls].component == ReferenceComponent {
      for i := 0 to |o.elements|
        invariant pushed == stack + o.elements[..i]
      {
        pushed := pushed + [o.elements[i]];
      }
    }
  }

  /** Reads the fields `fields` of class `c`, in the order `getDeclaredFields` gives, and pushes each non-null value read. */
  method PushDeclaredValues(o: Obj, c: ClassId, fields: seq<string>, stack: seq<Option<Ref>>)
    returns (pushed: seq<Option<Ref>>)
    ensures pushed == stack + DeclaredValues(o, c, fields)
  {
    pushed := stack;
    for j := 0 to |fields|
      invariant pushed == stack + DeclaredValues(o, c, fields[..j])
    {
      assert fields[..j + 1][..j] == fields[..j];
      var f := FieldGet(o, FieldRef(c, fields[j]));
      if f.Some? {
        pushed := pushed + [f];
      }
    }
    assert fields[..|fields|] == fields;
  }

  /**
    Walks from the runtime class of `o` up the superclass chain and pushes the
    value of every field declared on the way, skipping nulls and reads that
    throw.
   */
  method PushFieldValues(ct: ClassTable, o: Obj, stack: seq<Option<Ref>>) returns (pushed: seq<Option<Ref>>)
    requires ValidClassTable(ct) && o.cls in ct
    ensures pushed == stack + FieldValues(ct, o, o.cls)
  {
    pushed := stack;
    var c: Option<ClassId> := Some(o.cls);
    while c.Some?
      invariant c.Some? ==> c.value in ct
      invariant pushed + (if c.Some? then FieldValues(ct, o, c.value) else []) == stack + FieldValues(ct, o, o.cls)
      decreases if c.Some? then c.value + 1 else 0
    {
      ghost var rest := match ct[c.value].superclass
        case None => []
        case Some(s) => FieldValues(ct, o, s);
      var atClass := pushed;
      pushed := PushDeclaredValues(o, c.value, ct[c.value].declaredFields, pushed);
      assert atClass + FieldValues(ct, o, c.value) == pushed + rest;
      c := ct[c.value].superclass;
    }
  }

  /** Everything pushed when `t` is first visited: its array elements, then its field values. */
  method PushReferences(h: Heap, ct: ClassTable, t: Ref, stack: seq<Option<Ref>>) returns (pushed: seq<Option<Ref>>)
    requires ValidClassTable(ct) && t in h && h[t].cls in ct
    ensures pushed == stack + Pushed(h, ct, t)
  {
    var o := h[t];
    pushed := PushArrayElements(ct, o, stack);
    pushed := PushFieldValues(ct, o, pushed);
  }

  /**
    One turn of the walk: pops the top of the stack; if it is a non-null
    object not checked yet, adds its shallow size, checks it, and pushes its
    array elements and field values.
   */
  method VisitNext(h: Heap, ct: ClassTable, ghost root: Option<Ref>, instr: Option<Instrumentation>,
                   checked: set<Ref>, stack: seq<Option<Ref>>, size: nat, ghost visits: seq<Ref>)
    returns (checked': set<Ref>, stack': seq<Option<Ref>>, size': nat, ghost visits': seq<Ref>)
    requires ValidHeap(h, ct) && stack != []
    requires Walking(h, ct, root, instr, checked, stack, visits, size)
    ensures Walking(h, ct, root, instr, checked', stack', visits', size')
    ensures var tmp := stack[|stack| - 1];
      if tmp.Some? && tmp.value !in checked then
        && tmp.value in h && h[tmp.value].cls in ct
        && checked' == checked + {tmp.value}
        && stack' == stack[..|stack| - 1] + Pushed(h, ct, tmp.value)
        && size' == size + ShallowSize(instr, tmp.value)
      else
        && checked' == checked
        && stack' == stack[..|stack| - 1]
        && size' == size
    ensures |h.Keys - checked'| < |h.Keys - checked| || (checked' == checked && |stack'| < |stack|)
  {
    PopSplits(stack);
    var tmp := stack[|stack| - 1];
    stack' := stack[..|stack| - 1];

    if tmp.Some? && tmp.value !in checked {
      var t := tmp.value;
      WalkVisits(h, ct, root, instr, checked, stack', t, visits, size);
      // getObjectSize(tmp): ShallowSize on the registered Instrumentation, which GetObjectSize also answers
      size' := size + ShallowSize(instr, t);
      checked' := checked + {t};
      visits' := visits + [t];
      stack' := PushReferences(h, ct, t, stack');
    } else {
      WalkSkips(h, ct, root, instr, checked, stack', tmp, visits, size);
      checked', size', visits' := checked, size, visits;
    }
  }

  /**
    The class's static state. `instrument` is set by the agent hook;
    `checkedObjects` is the visited set shared by every call of
    `GetDeepObjectSize`.
   */
  class ObjectSizeUtil {
    var instrument: Option<Instrumentation>
    var checkedObjects: set<Ref>

    /** Static initialisation: no Instrumentation yet, nothing checked. */
    constructor ()
      ensures instrument == None && checkedObjects == {}
    {
      instrument := None;
      checkedObjects := {};
    }

    /** The shallow size of one object: 0 until an Instrumentation is registered, then its answer. */
    function GetObjectSize(obj: Ref): (n: nat)
      reads this`instrument
      ensures instrument == None ==> n == 0
      ensures instrument.Some? ==> n == instrument.value.objectSize(obj)
    {
      ShallowSize(instrument, obj)
    }

    /**
      The agent hook: registers the Instrumentation consulted from now on
      (a null one switches sizing back off). The argument string is ignored.
     */
    method Premain(args: string, inst: Option<Instrumentation>)
      modifies this`instrument
      ensures instrument == inst
      ensures inst.Some? ==> forall r :: GetObjectSize(r) == inst.value.objectSize(r)
      ensures inst.None? ==> forall r :: GetObjectSize(r) == 0
    {
      instrument := inst;
    }

    /**
      The deep size of `obj`: clears the checked set, then runs a stack-based
      depth-first walk that sizes each object the first time it is popped.
     */
    method GetDeepObjectSize(h: Heap, ct: ClassTable, obj: Option<Ref>) returns (size: nat)
      requires ValidHeap(h, ct)
      requires obj.Some? ==> obj.value in h
      modifies this`checkedObjects
      ensures checkedObjects == Reachable(h, ct, obj)
      ensures size == DeepSize(h, ct, obj, instrument)
    {
      checkedObjects := {};
      var stack: seq<Option<Ref>> := [obj];
      size := 0;
      ghost var visits: seq<Ref> := [];
      WalkStarts(h, ct, obj, instrument);

      while stack != []
        invariant Walking(h, ct, obj, instrument, checkedObjects, stack, visits, size)
        decreases |h.Keys - checkedObjects|, |stack|
      {
        checkedObjects, stack, size, visits := VisitNext(h, ct, obj, instrument, checkedObjects, stack, size, visits);
      }
      WalkEnds(h, ct, obj, instrument, checkedObjects, visits, size);
    }
  }

  /** Before the agent hook has run, the deep size of every object graph is 0. */
  method DeepSizeBeforePremain(h: Heap, ct: ClassTable, obj: Option<Ref>) returns (size: nat)
    requires ValidHeap(h, ct)
    requires obj.Some? ==> obj.value in h
    ensures size == 0
  {
    var util := new ObjectSizeUtil();
    size := util.GetDeepObjectSize(h, ct, obj);
    DeepSizeWithoutInstrumentation(h, ct, obj);
  }

  /**
    Once the hook has registered `inst`, the deep size is the sum of its
    answers over the reachable objects, and asking again gives the same
    answer: each call starts from an empty checked set.
   */
  method DeepSizeAfterPremain(h: Heap, ct: ClassTable, obj: Option<Ref>, inst: Instrumentation)
    returns (first: nat, second: nat)
    requires ValidHeap(h, ct)
    requires obj.Some? ==> obj.value in h
    ensures first == second == DeepSize(h, ct, obj, Some(inst))
  {
    var util := new ObjectSizeUtil();
    util.Premain("", Some(inst));
    first := util.GetDeepObjectSize(h, ct, obj);
    second := util.GetDeepObjectSize(h, ct, obj);
  }
}
