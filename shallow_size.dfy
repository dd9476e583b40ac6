/**
  The shallow-size capability the walk consumes: the JVM's
  `Instrumentation.getObjectSize`, registered by the agent hook, and the sum
  of shallow sizes over a set of distinct objects.
 */
module ShallowSizes {
  import opened JavaHeap

  /** The JVM's intrinsic per-object byte size, an opaque function of identity. */
  datatype Instrumentation = Instrumentation(objectSize: Ref -> nat)

  /** The shallow size as the walk sees it: 0 while no Instrumentation is registered. */
  function ShallowSize(instr: Option<Instrumentation>, r: Ref): (n: nat)
    ensures instr.None? ==> n == 0
    ensures instr.Some? ==> n == instr.value.objectSize(r)
  {
    match instr
    case None => 0
    case Some(i) => i.objectSize(r)
  }

  /** The shallow sizes of the objects in `s`, each counted once. */
  ghost function SumShallow(s: set<Ref>, instr: Option<Instrumentation>): nat {
    if s == {} then 0
    else
      var x :| x in s;
      ShallowSize(instr, x) + SumShallow(s - {x}, instr)
  }

  /** Any member can be taken out of the sum first. */
  lemma {:induction false} SumShallowRemove(s: set<Ref>, y: Ref, instr: Option<Instrumentation>)
    requires y in s
    ensures SumShallow(s, instr) == ShallowSize(instr, y) + SumShallow(s - {y}, instr)
  {
    var x :| x in s && SumShallow(s, instr) == ShallowSize(instr, x) + SumShallow(s - {x}, instr);
    if x != y {
      SumShallowRemove(s - {x}, y, instr);
      SumShallowRemove(s - {y}, x, instr);
      assert s - {x} - {y} == s - {y} - {x};
    }
  }

  /** Adding a not-yet-counted object adds exactly its shallow size. */
  lemma SumShallowInsert(s: set<Ref>, x: Ref, instr: Option<Instrumentation>)
    requires x !in s
    ensures SumShallow(s + {x}, instr) == SumShallow(s, instr) + ShallowSize(instr, x)
  {
    SumShallowRemove(s + {x}, x, instr);
    assert s + {x} - {x} == s;
  }

  /** Without a registered Instrumentation every sum is 0. */
  lemma {:induction false} SumShallowWithoutInstrumentation(s: set<Ref>)
    ensures SumShallow(s, None) == 0
  {
    if s != {} {
      var x :| x in s;
      SumShallowRemove(s, x, None);
      SumShallowWithoutInstrumentation(s - {x});
    }
  }

  /** The shallow sizes of `visits` added up in visiting order. */
  ghost function SumInOrder(visits: seq<Ref>, instr: Option<Instrumentation>): nat {
    if visits == [] then 0
    else SumInOrder(visits[..|visits| - 1], instr) + ShallowSize(instr, visits[|visits| - 1])
  }

  /** Visiting one more object adds its shallow size to the running total. */
  lemma SumInOrderAppend(visits: seq<Ref>, t: Ref, instr: Option<Instrumentation>)
    ensures SumInOrder(visits + [t], instr) == SumInOrder(visits, instr) + ShallowSize(instr, t)
  {
    assert (visits + [t])[..|visits|] == visits;
  }

  /** No object occurs twice in `visits`. */
  ghost predicate Distinct(visits: seq<Ref>) {
    forall i, j :: 0 <= i < j < |visits| ==> visits[i] != visits[j]
  }

  /** `visits` lists the objects of `s`, each exactly once. */
  ghost predicate ListsOnce(visits: seq<Ref>, s: set<Ref>) {
    Distinct(visits) && forall x :: x in visits <==> x in s
  }

  /** Appending an object not listed yet keeps every object listed once. */
  lemma ListsOnceAppend(visits: seq<Ref>, s: set<Ref>, t: Ref)
    requires ListsOnce(visits, s) && t !in s
    ensures ListsOnce(visits + [t], s + {t})
  {
    var v := visits + [t];
    assert forall i :: 0 <= i < |visits| ==> v[i] == visits[i];
    assert v[|visits|] == t;
  }

  /** Adding up a list that holds each object of `s` once gives the set sum of `s`. */
  lemma {:induction false} SumInOrderIsSumShallow(visits: seq<Ref>, s: set<Ref>, instr: Option<Instrumentation>)
    requires ListsOnce(visits, s)
    ensures SumInOrder(visits, instr) == SumShallow(s, instr)
    decreases |visits|
  {
    if visits == [] {
      assert s == {};
    } else {
      var init := visits[..|visits| - 1];
      var last := visits[|visits| - 1];
      assert visits == init + [last];
      assert last !in init;
      assert ListsOnce(init, s - {last});
      SumInOrderIsSumShallow(init, s - {last}, instr);
      SumShallowRemove(s, last, instr);
    }
  }
}
