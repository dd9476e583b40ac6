# ObjectSizeUtil, modelled in Dafny

`com.nequissimus.library.util.ObjectSizeUtil` is a Java agent utility that reports how many bytes an object occupies.
- `getObjectSize` asks the JVM's `Instrumentation` for one object's shallow size, and answers 0 while no `Instrumentation` is registered.
- `premain` is the `-javaagent` hook that registers the `Instrumentation`.
- `getDeepObjectSize` adds up the shallow sizes of every object reachable from a root. It clears a static set of checked objects and then runs a depth-first walk on an explicit stack. A popped object that is non-null and not yet checked is sized and marked. Then:
  - if it is an array of references, all of its elements, nulls included, are pushed;
  - for its class and every superclass, the value of each declared field is read reflectively, and non-null values are pushed;
  - a read that throws is skipped.

The model has five modules.

- `JavaHeap` (`heap.dfy`) is the part of the JVM the walk observes.
  - The heap is a map from object identity (`Ref`) to an object value, and the loaded classes form a `ClassTable`.
  - Each class has its declared field names, its superclass and its component kind.
  - Each object has its class, its array elements and the outcome of reading each field: a reference, null, or an exception.
  - `SuperChain` is the `c = c.getSuperclass()` walk. `DeclaredValues` and `FieldValues` give what the field loops push, `ArrayElements` gives what the array loop pushes, and `Pushed` gives everything one visit pushes, in order.
- `Reachability` (`reachability.dfy`) defines `Reachable`: the objects at the end of a chain of pushed references from the root. It is proved to be the least closed set that holds the root.
- `ShallowSizes` (`shallow_size.dfy`) covers the `Instrumentation` answer (`ShallowSize`) and two sums over it:
  - `SumShallow` counts each object of a set once;
  - `SumInOrder` adds sizes in visiting order.
- `ObjectSizeUtilModel` (`object_size_util.dfy`) holds `DeepSize`, the specification: the shallow sizes of all reachable objects, each counted once. It also holds the class `ObjectSizeUtil`.
  - The class's two static fields, `instrument` and `CHECKED_OBJECTS`, are the fields of one instance; the constructor stands for static initialisation.
  - `GetDeepObjectSize` keeps the source's loop. It is proved to return `DeepSize` and to leave the checked set equal to the reachable set.
  - The loop invariant `Walking` says:
    - the checked objects are reachable, and so is everything on the stack;
    - every reference pushed by a checked object is checked or still on the stack;
    - the running total is the shallow sizes of the checked objects, each added once.
  - One pass of the loop body is the method `VisitNext`. The inner pushing loops are the methods `PushArrayElements`, `PushFieldValues` (the superclass loop) and `PushDeclaredValues` (the loop over one class's fields).
- `Scenarios` (`scenarios.dfy`) works out the deep size by hand on small heaps: a two-object cycle, a shared reference, an `Object[]` with a null element, an `int[]`, and a field whose read throws.

The heap and the class table are parameters of `GetDeepObjectSize`, because the Java method reads the live JVM heap through reflection. The shallow size of each object is a parameter function inside `Instrumentation`.

## Model

| member | source | states |
|---|---|---|
| ObjectSizeUtilModel.ObjectSizeUtil.constructor | src/com/nequissimus/library/util/ObjectSizeUtil.java:21-27 | static initialisation: no Instrumentation registered and the checked set empty |
| ObjectSizeUtilModel.ObjectSizeUtil.GetObjectSize | src/com/nequissimus/library/util/ObjectSizeUtil.java:120-128 | 0 when no Instrumentation is registered, otherwise exactly the registered Instrumentation's answer for the object |
| ObjectSizeUtilModel.ObjectSizeUtil.Premain | src/com/nequissimus/library/util/ObjectSizeUtil.java:135-140 | stores the given Instrumentation (null included) and ignores the argument string; from then on GetObjectSize answers with it, or 0 if it was null |
| ObjectSizeUtilModel.ObjectSizeUtil.GetDeepObjectSize | src/com/nequissimus/library/util/ObjectSizeUtil.java:43-113 | returns the sum of shallow sizes of exactly the objects reachable from the root, each counted once; afterwards the checked set is exactly the reachable set (empty for a null root); with checked objects told apart by identity, the walk terminates on cyclic graphs |
| ObjectSizeUtilModel.VisitNext | src/com/nequissimus/library/util/ObjectSizeUtil.java:54-107 | one loop pass: pops the top; if it is non-null and unchecked, adds its shallow size, marks it and pushes its array elements and field values in source order; otherwise only pops. It keeps the walk invariant and makes progress (fewer unchecked objects, or a shorter stack) |
| ObjectSizeUtilModel.PushArrayElements | src/com/nequissimus/library/util/ObjectSizeUtil.java:62-76 | pushes every element (nulls included) of an array whose component type is not primitive, in index order; pushes nothing for primitive arrays and non-arrays |
| ObjectSizeUtilModel.PushFieldValues | src/com/nequissimus/library/util/ObjectSizeUtil.java:78-105 | the superclass loop with its nested field loop pushes exactly the field walk's values: each declared field from the runtime class up to the top of the superclass chain, skipping null values and reads that throw |
| ObjectSizeUtilModel.PushDeclaredValues | src/com/nequissimus/library/util/ObjectSizeUtil.java:81-101 | the loop over one class's declared fields pushes, in the order `getDeclaredFields` returns them, exactly the values of the fields that hold a non-null reference and can be read |
| ObjectSizeUtilModel.PushReferences | src/com/nequissimus/library/util/ObjectSizeUtil.java:62-105 | the array elements followed by the field values are appended to the stack |
| ObjectSizeUtilModel.WalkStarts | src/com/nequissimus/library/util/ObjectSizeUtil.java:45-50 | the state after clearing the checked set, pushing the root and zeroing the size satisfies the walk invariant |
| ObjectSizeUtilModel.WalkVisits | src/com/nequissimus/library/util/ObjectSizeUtil.java:56-60 | visiting a non-null unchecked object keeps the walk invariant, adds exactly its shallow size, and strictly shrinks the set of unchecked heap objects |
| ObjectSizeUtilModel.WalkSkips | src/com/nequissimus/library/util/ObjectSizeUtil.java:54-57 | popping null or an already-checked object keeps the walk invariant and leaves the size unchanged |
| ObjectSizeUtilModel.WalkEnds | src/com/nequissimus/library/util/ObjectSizeUtil.java:52-111 | once the stack is empty, the checked set is exactly the reachable set and the size is the deep size |
| ObjectSizeUtilModel.SkipKeepsFrontier | src/com/nequissimus/library/util/ObjectSizeUtil.java:54-57 | popping a null or checked reference leaves no pushed reference of a checked object unaccounted for |
| ObjectSizeUtilModel.VisitKeepsFrontier | src/com/nequissimus/library/util/ObjectSizeUtil.java:59-105 | after marking an object and pushing everything it refers to, every reference of a checked object is checked or on the stack |
| ObjectSizeUtilModel.VisitKeepsStackWithin | src/com/nequissimus/library/util/ObjectSizeUtil.java:62-105 | everything a reachable object pushes is reachable, so the stack never holds an unreachable object |
| ObjectSizeUtilModel.DeepSizeOfNull | src/com/nequissimus/library/util/ObjectSizeUtil.java:47-56 | a null root is pushed, popped and skipped: the deep size is 0 |
| ObjectSizeUtilModel.DeepSizeWithoutInstrumentation | src/com/nequissimus/library/util/ObjectSizeUtil.java:122-124 | while no Instrumentation is registered, every deep size is 0 |
| ObjectSizeUtilModel.LeafDeepSize | src/com/nequissimus/library/util/ObjectSizeUtil.java:52-111 | an object that refers to nothing but possibly itself reaches only itself and has its own shallow size as deep size |
| ObjectSizeUtilModel.PrimitiveArrayDeepSize | src/com/nequissimus/library/util/ObjectSizeUtil.java:63-76 | an array of a primitive type, whose class chain declares no fields, has only its own shallow size as deep size, whatever its elements |
| ObjectSizeUtilModel.PrimitiveElementsIgnored | src/com/nequissimus/library/util/ObjectSizeUtil.java:66 | replacing the elements of a primitive array changes no deep size |
| ObjectSizeUtilModel.DeepSizeBeforePremain | src/com/nequissimus/library/util/ObjectSizeUtil.java:21 | before the agent hook runs, getDeepObjectSize answers 0 for every root |
| ObjectSizeUtilModel.DeepSizeAfterPremain | src/com/nequissimus/library/util/ObjectSizeUtil.java:45 | after the hook, the deep size follows the registered Instrumentation, and two calls in a row give the same answer because each clears the checked set |
| JavaHeap.FieldGet | src/com/nequissimus/library/util/ObjectSizeUtil.java:89-99 | `field.get(tmp)` with the null test and the `catch`: None exactly when the field holds null, the read throws, or the object has no such field; otherwise the reference the field holds |
| ShallowSizes.ShallowSize | src/com/nequissimus/library/util/ObjectSizeUtil.java:59 | the `getObjectSize(tmp)` the walk makes (lines 120-128): 0 without an Instrumentation, otherwise its answer for the object |
| JavaHeap.SuperChain | src/com/nequissimus/library/util/ObjectSizeUtil.java:79-105 | the classes visited by the superclass loop: the runtime class first, each next the superclass of the one before, ending at a class without one; the loop terminates |
| JavaHeap.DeclaredValuesExactly | src/com/nequissimus/library/util/ObjectSizeUtil.java:83-101 | a field's value is pushed if and only if it is non-null and its read does not throw |
| JavaHeap.FieldValuesExactly | src/com/nequissimus/library/util/ObjectSizeUtil.java:79-105 | a reference is pushed by the field walk if and only if some field declared on the superclass chain holds it and can be read |
| JavaHeap.FieldValuesReadOnlySlots | src/com/nequissimus/library/util/ObjectSizeUtil.java:79-105 | the field walk depends only on field values, not on array elements |
| JavaHeap.NoDeclaredFieldsNothingRead | src/com/nequissimus/library/util/ObjectSizeUtil.java:79-105 | a superclass chain that declares no fields makes the field walk push nothing |
| JavaHeap.PushedInHeap | src/com/nequissimus/library/util/ObjectSizeUtil.java:62-105 | every reference a visit pushes is a live heap object |
| Reachability.ReachableStep | src/com/nequissimus/library/util/ObjectSizeUtil.java:62-105 | whatever a reachable object pushes is reachable |
| Reachability.ClosedContainsReachable | src/com/nequissimus/library/util/ObjectSizeUtil.java:52-109 | any set that holds the root and everything its members push holds every reachable object |
| Reachability.ReachableIsClosed | src/com/nequissimus/library/util/ObjectSizeUtil.java:52-109 | the reachable set holds the root and everything its members push |
| Reachability.NullReachesNothing | src/com/nequissimus/library/util/ObjectSizeUtil.java:56 | nothing is reachable from null |
| Reachability.SameEdgesSameReachable | src/com/nequissimus/library/util/ObjectSizeUtil.java:52-109 | the reachable set depends only on which references each visit pushes |
| ShallowSizes.SumShallowInsert | src/com/nequissimus/library/util/ObjectSizeUtil.java:56-60 | adding an unchecked object to the checked set adds exactly its shallow size to the total |
| ShallowSizes.SumShallowRemove | src/com/nequissimus/library/util/ObjectSizeUtil.java:56-60 | the total over a set does not depend on the order the objects are counted in |
| ShallowSizes.SumShallowWithoutInstrumentation | src/com/nequissimus/library/util/ObjectSizeUtil.java:122-124 | with no Instrumentation, any set of objects sums to 0 |
| ShallowSizes.SumInOrderIsSumShallow | src/com/nequissimus/library/util/ObjectSizeUtil.java:50-60 | adding shallow sizes in visiting order, each object once, gives the set sum of the visited objects |
| ShallowSizes.ListsOnceAppend | src/com/nequissimus/library/util/ObjectSizeUtil.java:56-60 | visiting an object not yet checked keeps every visited object listed exactly once |
| Scenarios.CycleCountsEachOnce | src/com/nequissimus/library/util/ObjectSizeUtil.java:36-39 | two objects referring to each other are each counted once |
| Reachability.RedundantEdgeReachable | src/com/nequissimus/library/util/ObjectSizeUtil.java:52-109 | in any heap, dropping a reference whose target stays reachable without it (the reference closing a cycle) leaves the reachable set unchanged |
| ObjectSizeUtilModel.RedundantEdgeDeepSize | src/com/nequissimus/library/util/ObjectSizeUtil.java:36-39 | in any heap, removing the reference that closes a cycle leaves the deep size unchanged |
| Scenarios.CycleEdgeChangesNothing | src/com/nequissimus/library/util/ObjectSizeUtil.java:36-39 | in the two-node cycle, removing the reference that closes the cycle leaves the deep size unchanged (proved as an instance of RedundantEdgeDeepSize, which states it for every heap) |
| Scenarios.SharedReferenceCountedOnce | src/com/nequissimus/library/util/ObjectSizeUtil.java:56-57 | an object reached through two fields is counted once |
| Scenarios.ReferenceArrayCountsElements | src/com/nequissimus/library/util/ObjectSizeUtil.java:66-76 | an Object[] holding two objects and a null counts the array and both objects |
| Scenarios.PrimitiveArrayAlone | src/com/nequissimus/library/util/ObjectSizeUtil.java:66 | an int[] counts only itself |
| Scenarios.ThrowingFieldSkipped | src/com/nequissimus/library/util/ObjectSizeUtil.java:89-99 | a field whose read throws is skipped and the next field is still followed |

## Left out

- Static fields are read too. `getDeclaredFields` returns static and instance fields alike, and the code does not filter them out. So the model's field walk reads every declared field, and a static field's value is reachable like any other. This differs from describing the walk as following instance fields only.
- Reflection failing outside the `try`: two calls sit outside the `try` at lines 89-99. The first is `c.getDeclaredFields()` at line 81. Under a security manager it throws a `SecurityException` when the class's loader differs from the caller's and `accessDeclaredMembers` is denied. Every superclass chain ends at `java.lang.Object`, which the bootstrap loader loads, so under such a manager the source aborts at line 81 for every non-null root. The second is `field.setAccessible(true)` at lines 85-87, which can throw a `SecurityException` or, on Java 9 and later, an `InaccessibleObjectException`. Either exception leaves `getDeepObjectSize` and aborts the whole call. Neither abort path is modelled: the model's walk always finishes and returns a total. Only failures of `field.get` itself (inside the `try`) are modelled, as the `Throws` read outcome.
- Autoboxing: a field of primitive type yields a boxed value that the walk then sizes. The model treats every field value as an existing heap object. A fresh boxed object per read, and its size, are not modelled.
- Checked-set identity: `HashSet.contains` and `add` (lines 56-57 and 60) compare by `equals`/`hashCode`. The model compares by object identity. This has two consequences the model does not capture:
  - An object that `equals` an already-checked object is skipped before anything it refers to is pushed. So the source neither sizes it nor walks anything reachable only through it. The model sizes it and walks on from it.
  - `contains` and `add` run user `hashCode`/`equals`, which can throw or fail to terminate: an `ArrayList` that contains itself overflows the stack in `hashCode` at line 57. The termination and the total proved for `GetDeepObjectSize` hold for identity-based checking, not for the source with such classes.
- ObjectSizeUtilModel.ObjectSizeUtil.GetDeepObjectSize: the source accumulates into a Java `long`. The model's total is an unbounded natural number, so 64-bit overflow is not modelled.
- ObjectSizeUtilModel.ObjectSizeUtil.GetObjectSize: `getObjectSize(null)` while an Instrumentation is registered throws a NullPointerException inside the JVM. The model takes only non-null references. The walk itself never passes null.
- ObjectSizeUtilModel.ObjectSizeUtil.GetDeepObjectSize: it takes the heap and the class table as parameters, because the JVM heap, reflection and `Instrumentation.getObjectSize` are outside the model. The heap is required to be closed: every reference points at a heap object.
- Load order: a superclass is assumed to carry a smaller class number than its subclass, as in JVM load order. This is how the superclass walk terminates.
- Shared static state: `CHECKED_OBJECTS` is a shared static set, and the source is not thread-safe. Concurrent calls are not modelled. One `ObjectSizeUtil` instance stands for the static state.
- Heap snapshot: the walk sees the heap as a snapshot that does not change during the call. The source walks the live heap. Other threads may change it meanwhile, and so may the walk's own reflection: `getDeclaredFields` at line 81 fills each `Class` object's reflection cache, which the walk can then reach through that `Class` object.
- The `Stack` object: it is a local `seq` that the loop reassigns.
- One loop pass: it is a separate method, `VisitNext`, and the array, superclass and field loops are their own methods. The order of pushes and the state after each pass are exactly those of the inline code.
- The private constructor: Java hides it. The model's constructor stands for the static initialisers instead.
