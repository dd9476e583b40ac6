/**
  The part of a running JVM that the deep-size walk looks at: the object heap,
  the loaded classes, and what reflection reports about both. Object identity
  is a `Ref`; what `getClass`, `getComponentType`, `getDeclaredFields`,
  `getSuperclass` and `Field.get` would answer are lookups here.
 */
module JavaHeap {

  datatype Option<T> = None | Some(value: T)

  /** The identity of a heap object (null is `None` wherever a reference may be null). */
  type Ref = nat

  /**
    A loaded class, numbered in the order the JVM loaded it. A class's
    superclass is always loaded before the class itself, so it carries a
    smaller number; `ValidClassTable` states this.
   */
  type ClassId = nat

  /** What `Class.getComponentType()` says about a class. */
  datatype Component =
    | NotArray              // getComponentType() returns null
    | PrimitiveComponent    // an array such as int[]: the component type is primitive
    | ReferenceComponent    // an array such as Object[] or String[]

  /**
    A class as reflection sees it: the names of the fields it declares itself
    (static and instance alike, as `getDeclaredFields` returns them), its
    superclass (`None` for java.lang.Object, interfaces and primitive types)
    and its component type.
   */
  datatype ClassInfo = ClassInfo(declaredFields: seq<string>, superclass: Option<ClassId>, component: Component)

  type ClassTable = map<ClassId, ClassInfo>

  /** A `java.lang.reflect.Field`: the class that declares it and its name. */
  datatype FieldRef = FieldRef(owner: ClassId, name: string)

  /** What `field.get(obj)` does for one field of one object. */
  datatype Slot =
    | Holds(target: Ref)    // returns a non-null reference
    | Null                  // returns null
    | Throws                // throws (access denied, wrong receiver, ...)

  /**
    A heap object: its runtime class, its elements if it is an array of
    references (`None` is a null element), and the outcome of reading each of
    its fields. A field missing from `slots` is read as throwing.
   */
  datatype Obj = Obj(cls: ClassId, elements: seq<Option<Ref>>, slots: map<FieldRef, Slot>)

  type Heap = map<Ref, Obj>

  /** Every superclass is loaded, and was loaded before its subclass. */
  ghost predicate ValidClassTable(ct: ClassTable) {
    forall c :: c in ct && ct[c].superclass.Some? ==>
      ct[c].superclass.value < c && ct[c].superclass.value in ct
  }

  /** An object's class is loaded and everything it refers to is in the heap. */
  ghost predicate ObjClosed(h: Heap, ct: ClassTable, o: Obj) {
    && o.cls in ct
    && (forall i :: 0 <= i < |o.elements| && o.elements[i].Some? ==> o.elements[i].value in h)
    && (forall f :: f in o.slots && o.slots[f].Holds? ==> o.slots[f].target in h)
  }

  /** The JVM heap is closed: no reference leads outside it. */
  ghost predicate ValidHeap(h: Heap, ct: ClassTable) {
    ValidClassTable(ct) && forall r :: r in h ==> ObjClosed(h, ct, h[r])
  }

  /**
    `field.get(obj)` wrapped in the walk's try/catch: `None` when the field
    holds null or the read throws.
   */
  function FieldGet(o: Obj, f: FieldRef): (v: Option<Ref>)
    ensures v == None <==> f !in o.slots || o.slots[f] == Null || o.slots[f] == Throws
    ensures v.Some? ==> o.slots[f] == Holds(v.value)
  {
    if f in o.slots && o.slots[f].Holds? then Some(o.slots[f].target) else None
  }

  /**
    The classes visited by `c = c.getSuperclass()` starting from `c`: `c`
    first, each next one the superclass of the one before, the last one
    without a superclass.
   */
  function SuperChain(ct: ClassTable, c: ClassId): (chain: seq<ClassId>)
    requires ValidClassTable(ct) && c in ct
    ensures |chain| > 0 && chain[0] == c
    ensures forall i :: 0 <= i < |chain| ==> chain[i] in ct && chain[i] <= c
    ensures forall i :: 0 <= i < |chain| - 1 ==> ct[chain[i]].superclass == Some(chain[i + 1])
    ensures ct[chain[|chain| - 1]].superclass == None
    decreases c
  {
    match ct[c].superclass
    case None => [c]
    case Some(s) => [c] + SuperChain(ct, s)
  }

  /**
    The references the walk pushes while reading the fields `names` declared
    by class `c`, in the order `getDeclaredFields` returns them: only
    non-null results of reads that did not throw.
   */
  function DeclaredValues(o: Obj, c: ClassId, names: seq<string>): seq<Option<Ref>>
  {
    if names == [] then []
    else
      var prefix := DeclaredValues(o, c, names[..|names| - 1]);
      match FieldGet(o, FieldRef(c, names[|names| - 1]))
      case Some(v) => prefix + [Some(v)]
      case None => prefix
  }

  /** The references pushed by the field walk from class `c` up to the top of its superclass chain. */
  function FieldValues(ct: ClassTable, o: Obj, c: ClassId): seq<Option<Ref>>
    requires ValidClassTable(ct) && c in ct
    decreases c
  {
    DeclaredValues(o, c, ct[c].declaredFields) +
    match ct[c].superclass
    case None => []
    case Some(s) => FieldValues(ct, o, s)
  }

  /** The references pushed for an array object: all elements, nulls included, of a non-primitive array. */
  function ArrayElements(ct: ClassTable, o: Obj): seq<Option<Ref>>
    requires o.cls in ct
  {
    if ct[o.cls].component == ReferenceComponent then o.elements else []
  }

  /** Everything pushed onto the stack when object `r` is first visited, in push order. */
  function Pushed(h: Heap, ct: ClassTable, r: Ref): seq<Option<Ref>>
    requires ValidClassTable(ct) && r in h && h[r].cls in ct
  {
    ArrayElements(ct, h[r]) + FieldValues(ct, h[r], h[r].cls)
  }

  /** Visiting `x` pushes a reference to `y`. */
  ghost predicate Edge(h: Heap, ct: ClassTable, x: Ref, y: Ref)
    requires ValidClassTable(ct)
  {
    x in h && h[x].cls in ct && Some(y) in Pushed(h, ct, x)
  }

  /** A field read pushes a reference exactly when it neither returns null nor throws. */
  lemma {:induction false} DeclaredValuesExactly(o: Obj, c: ClassId, names: seq<string>, v: Option<Ref>)
    ensures v in DeclaredValues(o, c, names) <==>
      v.Some? && exists n :: n in names && FieldGet(o, FieldRef(c, n)) == v
  {
    if names != [] {
      var init := names[..|names| - 1];
      var last := names[|names| - 1];
      DeclaredValuesExactly(o, c, init, v);
      assert names == init + [last];
      if v in DeclaredValues(o, c, names) {
        if v !in DeclaredValues(o, c, init) {
          assert FieldGet(o, FieldRef(c, last)) == v;
        } else {
          var n :| n in init && FieldGet(o, FieldRef(c, n)) == v;
          assert n in names;
        }
      }
      if v.Some? && exists n :: n in names && FieldGet(o, FieldRef(c, n)) == v {
        var n :| n in names && FieldGet(o, FieldRef(c, n)) == v;
        if n != last {
          assert n in init;
        }
      }
    }
  }

  /**
    The field walk pushes exactly the non-null values of readable fields
    declared anywhere on the superclass chain of `c`.
   */
  lemma {:induction false} FieldValuesExactly(ct: ClassTable, o: Obj, c: ClassId, v: Option<Ref>)
    requires ValidClassTable(ct) && c in ct
    ensures v in FieldValues(ct, o, c) <==>
      v.Some? && exists d, n :: d in SuperChain(ct, c) && n in ct[d].declaredFields && FieldGet(o, FieldRef(d, n)) == v
    decreases c
  {
    DeclaredValuesExactly(o, c, ct[c].declaredFields, v);
    match ct[c].superclass
    case None =>
      assert SuperChain(ct, c) == [c];
    case Some(s) =>
      FieldValuesExactly(ct, o, s, v);
      assert SuperChain(ct, c) == [c] + SuperChain(ct, s);
      if v.Some? && exists d, n :: d in SuperChain(ct, c) && n in ct[d].declaredFields && FieldGet(o, FieldRef(d, n)) == v {
        var d, n :| d in SuperChain(ct, c) && n in ct[d].declaredFields && FieldGet(o, FieldRef(d, n)) == v;
        if d != c {
          assert d in SuperChain(ct, s);
        }
      }
  }

  /** In a closed heap, every reference the walk pushes stays inside the heap. */
  lemma PushedInHeap(h: Heap, ct: ClassTable, x: Ref, y: Ref)
    requires ValidHeap(h, ct) && Edge(h, ct, x, y)
    ensures y in h
  {
    var o := h[x];
    assert ObjClosed(h, ct, o);
    if Some(y) in ArrayElements(ct, o) {
      var i :| 0 <= i < |o.elements| && o.elements[i] == Some(y);
    } else {
      FieldValuesExactly(ct, o, o.cls, Some(y));
      var d, n :| d in SuperChain(ct, o.cls) && n in ct[d].declaredFields && FieldGet(o, FieldRef(d, n)) == Some(y);
      assert FieldRef(d, n) in o.slots;
    }
  }

  /** The field walk reads fields only: two objects with the same slots push the same values. */
  lemma {:induction false} FieldValuesReadOnlySlots(ct: ClassTable, o: Obj, o': Obj, c: ClassId)
    requires ValidClassTable(ct) && c in ct && o.slots == o'.slots
    ensures FieldValues(ct, o, c) == FieldValues(ct, o', c)
    decreases c
  {
    DeclaredValuesReadOnlySlots(o, o', c, ct[c].declaredFields);
    match ct[c].superclass
    case None =>
    case Some(s) => FieldValuesReadOnlySlots(ct, o, o', s);
  }

  lemma {:induction false} DeclaredValuesReadOnlySlots(o: Obj, o': Obj, c: ClassId, names: seq<string>)
    requires o.slots == o'.slots
    ensures DeclaredValues(o, c, names) == DeclaredValues(o', c, names)
  {
    if names != [] {
      DeclaredValuesReadOnlySlots(o, o', c, names[..|names| - 1]);
    }
  }

  /** A class chain that declares no fields gives the field walk nothing to read. */
  lemma {:induction false} NoDeclaredFieldsNothingRead(ct: ClassTable, o: Obj, c: ClassId)
    requires ValidClassTable(ct) && c in ct
    requires forall d :: d in SuperChain(ct, c) ==> ct[d].declaredFields == []
    ensures FieldValues(ct, o, c) == []
    decreases c
  {
    assert c in SuperChain(ct, c);
    match ct[c].superclass
    case None =>
    case Some(s) =>
      assert SuperChain(ct, c) == [c] + SuperChain(ct, s);
      NoDeclaredFieldsNothingRead(ct, o, s);
  }
}
