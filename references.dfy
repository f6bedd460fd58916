/** The reference graph of references.py. References live in a table keyed by object id, the
    table ReferenceBuilder.references becomes; a child points at another reference by its id.
    Each reference's children dict first holds raw ids and, once resolved, the id of the
    reference found in the table or None. */
module References {
  import opened Wrappers
  import opened BigEndian
  import opened Constants
  import opened Decoding
  import opened Dicts
  import opened HeapBlocks
  import Blocks

  type Text = Blocks.Text

  /** ID_SIZE: an object field of an instance is read as 8 bytes whatever the header's id size. */
  const IdSize: nat := 8

  /** A children key: a field name of an instance, an index of an object array. */
  datatype Key = Name(name: Text) | Index(index: nat)

  /** A children value: the raw id a constructor stored, or what resolve_children put there. */
  datatype Slot = Pending(id: nat) | Resolved(target: Option<nat>)

  type Children = Dict<Key, Slot>

  /** The parent_class attribute of a JavaClass, which only build sets. */
  datatype Link = Unlinked | Linked(target: Option<nat>)

  datatype JavaClass = JavaClass(name: Text, parentClassId: nat, instanceFields: seq<Entry>, parentClass: Link)

  /** InstanceReference, ObjectArrayReference and PrimitiveArrayReference. An instance names its
      class by the class's id. */
  datatype Reference =
    | InstanceReference(classId: nat, baseSize: nat, children: Children)
    | ObjectArrayReference(baseSize: nat, children: Children)
    | PrimitiveArrayReference(elementType: BasicType, elementSize: nat, numberOfElements: nat,
                              baseSize: nat, children: Children)

  // ---------------------------------------------------------------------------------------
  // build_from_instance_dump

  /** The bytes a field of type tp takes in an instance: ID_SIZE for an object, TYPE_SIZES otherwise. */
  function FieldWidth(tp: BasicType): nat {
    TypeSize(IdSize, tp)
  }

  /** The offset of field i: the widths of the fields before it. */
  function OffsetOf(fields: seq<Entry>, i: nat): nat
    requires i <= |fields|
  {
    if i == 0 then 0 else OffsetOf(fields, i - 1) + FieldWidth(fields[i - 1].tp)
  }

  /** `struct.unpack('>Q', bytes[off:off + 8])[0]`. */
  function IdAt(bytes: seq<byte>, off: nat): nat
    requires off + IdSize <= |bytes|
  {
    FromBE(bytes[off..off + IdSize])
  }

  /** The loop of build_from_instance_dump from field i on, acc holding what the fields before
      it stored: a pair that is no (name_id, tp) fails to unpack, an object field reads its id
      before it looks up its name. */
  function FieldsFrom(strings: map<nat, Text>, fields: seq<Entry>, bytes: seq<byte>, i: nat, acc: Children): Result<Children>
    requires i <= |fields|
    decreases |fields| - i
  {
    if i == |fields| then Success(acc)
    else
      var off := OffsetOf(fields, i);
      match fields[i]
      case InstanceField(nameId, tp) =>
        if tp != Object then FieldsFrom(strings, fields, bytes, i + 1, acc)
        else if off + IdSize > |bytes| then Failure(StructError)
        else if nameId !in strings then Failure(KeyError)
        else FieldsFrom(strings, fields, bytes, i + 1, Put(acc, Name(strings[nameId]), Pending(IdAt(bytes, off))))
      case _ => Failure(ValueError)
  }

  /** The reference build_from_instance_dump returns for an instance of cls. */
  function InstanceFrom(strings: map<nat, Text>, cls: JavaClass, instance: HeapBlock): Result<Reference>
    requires instance.InstanceDump?
  {
    match FieldsFrom(strings, cls.instanceFields, instance.bytes, 0, [])
    case Failure(err) => Failure(err)
    case Success(children) => Success(InstanceReference(instance.classObjectId, |instance.bytes|, children))
  }

  /** InstanceReference.build_from_instance_dump. */
  method BuildFromInstanceDump(strings: map<nat, Text>, cls: JavaClass, instance: HeapBlock) returns (r: Result<Reference>)
    requires instance.InstanceDump?
    ensures r == InstanceFrom(strings, cls, instance)
  {
    var fields := cls.instanceFields;
    var offset := 0;
    var children: Children := [];
    var i := 0;
    while i < |fields|
      invariant i <= |fields| && offset == OffsetOf(fields, i)
      decreases |fields| - i
      invariant FieldsFrom(strings, fields, instance.bytes, i, children) == FieldsFrom(strings, fields, instance.bytes, 0, [])
    {
      match fields[i] {
        case InstanceField(nameId, tp) =>
        if tp == Object {
          if offset + IdSize > |instance.bytes| {
            return Failure(StructError);
          }
          var id := FromBE(instance.bytes[offset..offset + IdSize]);
          if nameId !in strings {
            return Failure(KeyError);
          }
          children := Put(children, Name(strings[nameId]), Pending(id));
          offset := offset + IdSize;
        } else {
          offset := offset + PrimitiveWidth(tp);
        }
        case _ =>
          return Failure(ValueError);
      }
      i := i + 1;
    }
    r := Success(InstanceReference(instance.classObjectId, |instance.bytes|, children));
  }

  /** Field i ends the walk: it is no (name_id, tp) pair, or it is an object field whose 8 bytes
      are not all there or whose name is no string. */
  predicate Stops(strings: map<nat, Text>, fields: seq<Entry>, bytes: seq<byte>, i: nat)
    requires i < |fields|
  {
    || !fields[i].InstanceField?
    || (fields[i].tp == Object && (OffsetOf(fields, i) + IdSize > |bytes| || fields[i].nameId !in strings))
  }

  /** The exception the field that ends the walk raises. */
  function StopError(strings: map<nat, Text>, fields: seq<Entry>, bytes: seq<byte>, i: nat): Error
    requires i < |fields|
  {
    if !fields[i].InstanceField? then ValueError
    else if OffsetOf(fields, i) + IdSize > |bytes| then StructError
    else KeyError
  }

  /** The walk fails exactly when some field ends it. */
  lemma {:induction false} FieldsFail(strings: map<nat, Text>, fields: seq<Entry>, bytes: seq<byte>, i0: nat, acc: Children)
    requires i0 <= |fields|
    ensures FieldsFrom(strings, fields, bytes, i0, acc).Failure?
        <==> exists i :: i0 <= i < |fields| && Stops(strings, fields, bytes, i)
    decreases |fields| - i0
  {
    if i0 < |fields| && !Stops(strings, fields, bytes, i0) {
      FieldsFail(strings, fields, bytes, i0 + 1, FieldsNext(strings, fields, bytes, i0, acc));
    }
  }

  /** The walk that fails raises the exception of the first field that ends it. */
  lemma {:induction false} FieldsFailWith(strings: map<nat, Text>, fields: seq<Entry>, bytes: seq<byte>, i0: nat, acc: Children, i: nat)
    requires i0 <= i < |fields| && Stops(strings, fields, bytes, i)
    requires forall j :: i0 <= j < i ==> !Stops(strings, fields, bytes, j)
    ensures FieldsFrom(strings, fields, bytes, i0, acc) == Failure(StopError(strings, fields, bytes, i))
    decreases i - i0
  {
    if i0 < i {
      FieldsFailWith(strings, fields, bytes, i0 + 1, FieldsNext(strings, fields, bytes, i0, acc), i);
    }
  }

  /** The children after a field that does not end the walk. */
  function FieldsNext(strings: map<nat, Text>, fields: seq<Entry>, bytes: seq<byte>, i: nat, acc: Children): (next: Children)
    requires i < |fields| && !Stops(strings, fields, bytes, i)
    ensures FieldsFrom(strings, fields, bytes, i, acc) == FieldsFrom(strings, fields, bytes, i + 1, next)
  {
    if fields[i].tp == Object
    then Put(acc, Name(strings[fields[i].nameId]), Pending(IdAt(bytes, OffsetOf(fields, i))))
    else acc
  }

  /** Field i is an object field stored under the name k. */
  predicate StoresUnder(strings: map<nat, Text>, fields: seq<Entry>, bytes: seq<byte>, i: nat, k: Key)
    requires i < |fields|
  {
    && fields[i].InstanceField? && fields[i].tp == Object
    && OffsetOf(fields, i) + IdSize <= |bytes| && fields[i].nameId in strings
    && Name(strings[fields[i].nameId]) == k
  }

  /** What the last field from i on that is stored under k holds: the id at its offset. */
  function LastStore(strings: map<nat, Text>, fields: seq<Entry>, bytes: seq<byte>, i: nat, k: Key): Option<Slot>
    requires i <= |fields|
    decreases |fields| - i
  {
    if i == |fields| then None
    else
      var later := LastStore(strings, fields, bytes, i + 1, k);
      if later.Some? then later
      else if StoresUnder(strings, fields, bytes, i, k) then Some(Pending(IdAt(bytes, OffsetOf(fields, i))))
      else None
  }

  /** A walk that succeeds stores under every name the id of the last object field of that
      name, keeps every other key, and keeps the keys unique. */
  lemma {:induction false} FieldsStore(strings: map<nat, Text>, fields: seq<Entry>, bytes: seq<byte>, i0: nat, acc: Children, k: Key)
    requires i0 <= |fields| && UniqueKeys(acc)
    requires FieldsFrom(strings, fields, bytes, i0, acc).Success?
    ensures UniqueKeys(FieldsFrom(strings, fields, bytes, i0, acc).value)
    ensures Get(FieldsFrom(strings, fields, bytes, i0, acc).value, k)
         == if LastStore(strings, fields, bytes, i0, k).Some? then LastStore(strings, fields, bytes, i0, k) else Get(acc, k)
    decreases |fields| - i0
  {
    if i0 < |fields| {
      assert !Stops(strings, fields, bytes, i0);
      var next := FieldsNext(strings, fields, bytes, i0, acc);
      if fields[i0].tp == Object {
        var name := Name(strings[fields[i0].nameId]);
        PutShape(acc, name, Pending(IdAt(bytes, OffsetOf(fields, i0))));
        PutGet(acc, name, Pending(IdAt(bytes, OffsetOf(fields, i0))), k);
      }
      FieldsStore(strings, fields, bytes, i0 + 1, next, k);
    }
  }

  /** The base size of an instance is the length of its bytes, whatever its fields. */
  lemma InstanceSize(strings: map<nat, Text>, cls: JavaClass, instance: HeapBlock, k: Key)
    requires instance.InstanceDump?
    ensures InstanceFrom(strings, cls, instance).Success? ==>
      var r := InstanceFrom(strings, cls, instance).value;
      && r.InstanceReference? && r.classId == instance.classObjectId && r.baseSize == |instance.bytes|
      && UniqueKeys(r.children)
      && Get(r.children, k) == LastStore(strings, cls.instanceFields, instance.bytes, 0, k)
  {
    if InstanceFrom(strings, cls, instance).Success? {
      FieldsStore(strings, cls.instanceFields, instance.bytes, 0, [], k);
    }
  }

  // ---------------------------------------------------------------------------------------
  // The array references

  /** ObjectArrayReference(elements): index i holds element i. */
  function ObjectArrayOf(arrayOverhead: nat, elements: seq<nat>): (r: Reference)
    ensures r.ObjectArrayReference? && r.baseSize == arrayOverhead + |elements| * IdSize
  {
    ObjectArrayReference(arrayOverhead + |elements| * IdSize,
      seq(|elements|, i requires 0 <= i < |elements| => (Index(i), Pending(elements[i]))))
  }

  /** An object array's children are its indices, each once, holding the elements in order. */
  lemma ObjectArrayChildren(arrayOverhead: nat, elements: seq<nat>, k: Key)
    ensures UniqueKeys(ObjectArrayOf(arrayOverhead, elements).children)
    ensures Get(ObjectArrayOf(arrayOverhead, elements).children, k)
         == if k.Index? && k.index < |elements| then Some(Pending(elements[k.index])) else None
  {
    var c := ObjectArrayOf(arrayOverhead, elements).children;
    if k.Index? && k.index < |elements| {
      GetAt(c, k.index);
    }
  }

  /** PrimitiveArrayReference: no children; the shared default dict stays empty. */
  function PrimitiveArrayOf(arrayOverhead: nat, elementType: BasicType, elementSize: nat, n: nat): (r: Reference)
    ensures r.PrimitiveArrayReference? && r.baseSize == arrayOverhead + elementSize * n && r.children == []
    ensures r.elementType == elementType && r.elementSize == elementSize && r.numberOfElements == n
  {
    PrimitiveArrayReference(elementType, elementSize, n, arrayOverhead + elementSize * n, [])
  }

  // ---------------------------------------------------------------------------------------
  // resolve_children

  /** `references.get(c)` for a children value c: a raw id finds its reference or None; a value
      already resolved is no key of the table, so it becomes None. */
  function ResolveSlot(refs: map<nat, Reference>, s: Slot): Slot {
    match s
    case Pending(c) => Resolved(if c in refs then Some(c) else None)
    case Resolved(_) => Resolved(None)
  }

  function Resolve(refs: map<nat, Reference>, children: Children): Children {
    seq(|children|, i requires 0 <= i < |children| => (children[i].0, ResolveSlot(refs, children[i].1)))
  }

  /** BaseReference.resolve_children: every value rewritten in place, the keys untouched. */
  method ResolveChildren(refs: map<nat, Reference>, children: Children) returns (out: Children)
    ensures out == Resolve(refs, children)
  {
    out := children;
    var i := 0;
    while i < |out|
      invariant i <= |out| == |children|
      invariant forall j :: 0 <= j < i ==> out[j] == (children[j].0, ResolveSlot(refs, children[j].1))
      invariant forall j :: i <= j < |out| ==> out[j] == children[j]
    {
      out := out[i := (out[i].0, ResolveSlot(refs, out[i].1))];
      i := i + 1;
    }
  }

  /** Resolution keeps the key set and maps every key's raw id to the reference of that id, or
      to None when the table has none. */
  lemma ResolveGet(refs: map<nat, Reference>, children: Children, k: Key)
    requires UniqueKeys(children)
    ensures UniqueKeys(Resolve(refs, children))
    ensures Get(Resolve(refs, children), k) == match Get(children, k)
      case None => None
      case Some(s) => Some(ResolveSlot(refs, s))
  {
    var r := Resolve(refs, children);
    assert forall i :: 0 <= i < |r| ==> r[i].0 == children[i].0;
    if HasKey(children, k) {
      var i :| 0 <= i < |children| && children[i].0 == k;
      GetAt(children, i);
      GetAt(r, i);
    } else {
      assert !HasKey(r, k);
    }
  }

  /** Resolution must not be repeated: a second one leaves every child None. */
  lemma ResolveTwice(refs: map<nat, Reference>, children: Children)
    ensures forall i :: 0 <= i < |children| ==> Resolve(refs, Resolve(refs, children))[i].1 == Resolved(None)
  {
  }

  // ---------------------------------------------------------------------------------------
  // The resolved graph and bfs_children

  /** A children value of a resolved graph: resolved, to a reference of the table or to None. */
  predicate SlotIn(refs: map<nat, Reference>, s: Slot) {
    s.Resolved? && (s.target.Some? ==> s.target.value in refs)
  }

  /** Every reference's children resolved against the table: what build leaves. */
  predicate Graph(refs: map<nat, Reference>) {
    forall id, i :: id in refs && 0 <= i < |refs[id].children| ==> SlotIn(refs, refs[id].children[i].1)
  }

  /** An edge: a child of a that is b. */
  predicate Edge(refs: map<nat, Reference>, a: nat, b: nat) {
    a in refs && exists i :: 0 <= i < |refs[a].children| && refs[a].children[i].1 == Resolved(Some(b))
  }

  predicate Path(refs: map<nat, Reference>, p: seq<nat>) {
    |p| > 0 && forall i :: 0 <= i < |p| - 1 ==> Edge(refs, p[i], p[i + 1])
  }

  /** x can be reached from root by following non-None children. */
  ghost predicate Reachable(refs: map<nat, Reference>, root: nat, x: nat) {
    exists p :: Path(refs, p) && p[0] == root && p[|p| - 1] == x
  }

  /** What `seen.add(...)` adds when a child is queued: bfs_children adds the node whose children
      are scanned; the evident intent is the child. */
  datatype Mark = MarkParent | MarkChild

  datatype Bfs = Bfs(seen: set<nat>, queue: seq<nat>, yielded: seq<nat>)

  /** The inner loop of bfs_children over n's children from index i on. */
  function Scan(mark: Mark, n: nat, children: Children, i: nat, seen: set<nat>, queue: seq<nat>): (set<nat>, seq<nat>)
    requires i <= |children|
    decreases |children| - i
  {
    if i == |children| then (seen, queue)
    else
      var child := children[i].1;
      if child.Resolved? && child.target.Some? && child.target.value !in seen then
        Scan(mark, n, children, i + 1, seen + {if mark == MarkParent then n else child.target.value},
             queue + [child.target.value])
      else Scan(mark, n, children, i + 1, seen, queue)
  }

  /** A scan only adds to seen and to the end of the queue; what it queues is a child not seen
      before; what it adds to seen is n as written, the queued child as corrected. */
  lemma {:induction false} ScanGrows(mark: Mark, n: nat, ch: Children, i: nat, seen: set<nat>, queue: seq<nat>)
    requires i <= |ch|
    ensures var r := Scan(mark, n, ch, i, seen, queue);
      && seen <= r.0 && |queue| <= |r.1| && r.1[..|queue|] == queue
      && (forall x :: x in r.1[|queue|..] ==> x !in seen && exists j :: i <= j < |ch| && ch[j].1 == Resolved(Some(x)))
      && (forall x :: x in r.0 && x !in seen ==> if mark == MarkParent then x == n else x in r.1[|queue|..])
      && ((mark == MarkChild || n !in seen) && r.0 == seen ==> r.1 == queue)
    decreases |ch| - i
  {
    if i < |ch| {
      var s := ch[i].1;
      if s.Resolved? && s.target.Some? && s.target.value !in seen {
        var c := s.target.value;
        var m := if mark == MarkParent then n else c;
        ScanGrows(mark, n, ch, i + 1, seen + {m}, queue + [c]);
        var r := Scan(mark, n, ch, i + 1, seen + {m}, queue + [c]);
        assert r.1[..|queue|] == (r.1[..|queue| + 1])[..|queue|];
        assert r.1[|queue|..] == [c] + r.1[|queue| + 1..];
      } else {
        ScanGrows(mark, n, ch, i + 1, seen, queue);
      }
    }
  }

  /** After a scan every child is seen or queued by it. */
  lemma {:induction false} ScanCovers(mark: Mark, n: nat, ch: Children, i: nat, seen: set<nat>, queue: seq<nat>)
    requires i <= |ch|
    ensures var r := Scan(mark, n, ch, i, seen, queue);
      |queue| <= |r.1| &&
      forall j :: i <= j < |ch| && ch[j].1.Resolved? && ch[j].1.target.Some? ==>
        ch[j].1.target.value in r.0 || ch[j].1.target.value in r.1[|queue|..]
    decreases |ch| - i
  {
    ScanGrows(mark, n, ch, i, seen, queue);
    if i < |ch| {
      var s := ch[i].1;
      var r := Scan(mark, n, ch, i, seen, queue);
      if s.Resolved? && s.target.Some? && s.target.value !in seen {
        var c := s.target.value;
        var m := if mark == MarkParent then n else c;
        ScanCovers(mark, n, ch, i + 1, seen + {m}, queue + [c]);
        ScanGrows(mark, n, ch, i + 1, seen + {m}, queue + [c]);
        assert r.1[|queue|..] == [c] + r.1[|queue| + 1..];
      } else {
        ScanCovers(mark, n, ch, i + 1, seen, queue);
        ScanGrows(mark, n, ch, i + 1, seen, queue);
      }
    }
  }

  /** As corrected, a scan adds to seen exactly what it queues, and queues nothing twice. */
  lemma {:induction false} ScanOnce(n: nat, ch: Children, i: nat, seen: set<nat>, queue: seq<nat>)
    requires i <= |ch|
    ensures var r := Scan(MarkChild, n, ch, i, seen, queue);
      && |queue| <= |r.1|
      && r.0 == seen + set x | x in r.1[|queue|..]
      && forall a, b :: |queue| <= a < b < |r.1| ==> r.1[a] != r.1[b]
    decreases |ch| - i
  {
    ScanGrows(MarkChild, n, ch, i, seen, queue);
    if i < |ch| {
      var s := ch[i].1;
      if s.Resolved? && s.target.Some? && s.target.value !in seen {
        var c := s.target.value;
        ScanOnce(n, ch, i + 1, seen + {c}, queue + [c]);
        ScanGrows(MarkChild, n, ch, i + 1, seen + {c}, queue + [c]);
        var r := Scan(MarkChild, n, ch, i + 1, seen + {c}, queue + [c]);
        assert r.1[|queue|..] == [c] + r.1[|queue| + 1..];
        forall b | |queue| < b < |r.1| ensures r.1[|queue|] != r.1[b] {
          assert r.1[b] in r.1[|queue| + 1..];
        }
      } else {
        ScanOnce(n, ch, i + 1, seen, queue);
      }
    }
  }

  /** The entries of the queue already seen. */
  function CountIn(q: seq<nat>, s: set<nat>): nat {
    if q == [] then 0 else (if q[0] in s then 1 else 0) + CountIn(q[1..], s)
  }

  lemma {:induction false} CountInNone(t: seq<nat>, s: set<nat>)
    requires forall x :: x in t ==> x !in s
    ensures CountIn(t, s) == 0
  {
    if t != [] {
      assert t[0] in t;
      CountInNone(t[1..], s);
    }
  }

  lemma {:induction false} CountInAppend(q: seq<nat>, t: seq<nat>, s: set<nat>)
    requires forall x :: x in t ==> x !in s
    ensures CountIn(q + t, s) == CountIn(q, s)
    decreases |q|
  {
    if q == [] {
      assert [] + t == t;
      CountInNone(t, s);
    } else {
      assert (q + t)[1..] == q[1..] + t;
      CountInAppend(q[1..], t, s);
    }
  }

  lemma ProperSubsetSmaller(a: set<nat>, b: set<nat>)
    requires a < b
    ensures |a| < |b|
  {
    var x :| x in b && x !in a;
    assert a <= b - {x};
    SubsetNotLarger(a, b - {x});
  }

  lemma {:induction false} SubsetNotLarger(a: set<nat>, b: set<nat>)
    requires a <= b
    ensures |a| <= |b|
    decreases |a|
  {
    if a != {} {
      var x :| x in a;
      SubsetNotLarger(a - {x}, b - {x});
    }
  }

  /** Every id queued belongs to the table. */
  predicate InTable(refs: map<nat, Reference>, q: seq<nat>) {
    forall x :: x in q ==> x in refs
  }

  /** One round of the outer loop: n leaves the queue and is yielded, its children are scanned. */
  function Step(refs: map<nat, Reference>, mark: Mark, st: Bfs): Bfs
    requires st.queue != [] && InTable(refs, st.queue)
  {
    var n := st.queue[0];
    var r := Scan(mark, n, refs[n].children, 0, st.seen, st.queue[1..]);
    Bfs(r.0, r.1, st.yielded + [n])
  }

  /** A scan of a node of a resolved table queues only nodes of the table. */
  lemma ScanInTable(refs: map<nat, Reference>, mark: Mark, n: nat, q1: seq<nat>, seen: set<nat>)
    requires Graph(refs) && n in refs && InTable(refs, q1)
    ensures InTable(refs, Scan(mark, n, refs[n].children, 0, seen, q1).1)
  {
    var ch := refs[n].children;
    var r := Scan(mark, n, ch, 0, seen, q1);
    ScanGrows(mark, n, ch, 0, seen, q1);
    forall x | x in r.1 ensures x in refs {
      if x !in q1 {
        assert x in r.1[|q1|..] by { assert r.1 == r.1[..|q1|] + r.1[|q1|..]; }
        var j :| 0 <= j < |ch| && ch[j].1 == Resolved(Some(x));
        assert SlotIn(refs, ch[j].1);
      }
    }
  }

  /** Each round shrinks the unseen part of the table, or else the seen part of the queue, or
      else the queue: the traversal ends on every graph, cycles and self-loops included. */
  lemma StepDecreases(refs: map<nat, Reference>, mark: Mark, st: Bfs)
    requires Graph(refs) && st.queue != [] && InTable(refs, st.queue)
    ensures var st' := Step(refs, mark, st);
      && InTable(refs, st'.queue)
      && (|refs.Keys - st'.seen| < |refs.Keys - st.seen|
          || (st'.seen == st.seen && CountIn(st'.queue, st.seen) < CountIn(st.queue, st.seen))
          || (st'.seen == st.seen && CountIn(st'.queue, st.seen) <= CountIn(st.queue, st.seen) && |st'.queue| < |st.queue|))
  {
    var n := st.queue[0];
    var ch := refs[n].children;
    var q1 := st.queue[1..];
    var r := Scan(mark, n, ch, 0, st.seen, q1);
    ScanGrows(mark, n, ch, 0, st.seen, q1);
    ScanInTable(refs, mark, n, q1, st.seen);
    assert st.queue == [n] + q1;
    if r.0 != st.seen {
      var x :| x in r.0 && x !in st.seen;
      assert n in st.queue;
      if mark == MarkChild {
        assert x in r.1[|q1|..];
        assert x in r.1;
      }
      assert x in refs.Keys - st.seen && x !in refs.Keys - r.0;
      ProperSubsetSmaller(refs.Keys - r.0, refs.Keys - st.seen);
    } else {
      assert r.1 == q1 + r.1[|q1|..];
      CountInAppend(q1, r.1[|q1|..], st.seen);
    }
  }

  /** The outer loop of bfs_children from state st to the empty queue. */
  function Run(refs: map<nat, Reference>, mark: Mark, st: Bfs): (r: Bfs)
    requires Graph(refs) && InTable(refs, st.queue)
    decreases |refs.Keys - st.seen|, CountIn(st.queue, st.seen), |st.queue|
    ensures r.queue == []
  {
    if st.queue == [] then st
    else
      StepDecreases(refs, mark, st);
      Run(refs, mark, Step(refs, mark, st))
  }

  /** What bfs_children yields from root, mark saying what is added to seen. */
  function BfsSpec(refs: map<nat, Reference>, mark: Mark, root: nat): seq<nat>
    requires Graph(refs) && root in refs
  {
    Run(refs, mark, Bfs({root}, [root], [])).yielded
  }

  /** BaseReference.bfs_children, the generator's output collected; mark == MarkParent is the
      source as written. */
  method BfsChildren(refs: map<nat, Reference>, root: nat, mark: Mark) returns (yielded: seq<nat>)
    requires Graph(refs) && root in refs
    ensures yielded == BfsSpec(refs, mark, root)
  {
    var seen: set<nat> := {root};
    var queue: seq<nat> := [root];
    yielded := [];
    while queue != []
      invariant InTable(refs, queue)
      invariant Run(refs, mark, Bfs(seen, queue, yielded)) == Run(refs, mark, Bfs({root}, [root], []))
      decreases |refs.Keys - seen|, CountIn(queue, seen), |queue|
    {
      StepDecreases(refs, mark, Bfs(seen, queue, yielded));
      ghost var st := Bfs(seen, queue, yielded);
      var n := queue[0];
      queue := queue[1..];
      yielded := yielded + [n];
      seen, queue := ScanChildren(mark, n, refs[n].children, seen, queue);
      assert Bfs(seen, queue, yielded) == Step(refs, mark, st);
    }
  }

  /** The inner loop of bfs_children: n's children in order, each non-None child not yet seen
      queued, with the mark added to seen. */
  method ScanChildren(mark: Mark, n: nat, children: Children, seen: set<nat>, queue: seq<nat>)
    returns (seen': set<nat>, queue': seq<nat>)
    ensures (seen', queue') == Scan(mark, n, children, 0, seen, queue)
  {
    seen', queue' := seen, queue;
    var i := 0;
    while i < |children|
      invariant i <= |children|
      invariant Scan(mark, n, children, i, seen', queue') == Scan(mark, n, children, 0, seen, queue)
    {
      var child := children[i].1;
      if child.Resolved? && child.target.Some? && child.target.value !in seen' {
        seen' := seen' + {if mark == MarkParent then n else child.target.value};
        queue' := queue' + [child.target.value];
      }
      i := i + 1;
    }
  }

  /** Run keeps what was yielded and yields the head of the queue next. */
  lemma {:induction false} RunYields(refs: map<nat, Reference>, mark: Mark, st: Bfs)
    requires Graph(refs) && InTable(refs, st.queue)
    ensures var r := Run(refs, mark, st);
      && |st.yielded| <= |r.yielded| && r.yielded[..|st.yielded|] == st.yielded
      && (st.queue != [] ==> |st.yielded| < |r.yielded| && r.yielded[|st.yielded|] == st.queue[0])
    decreases |refs.Keys - st.seen|, CountIn(st.queue, st.seen), |st.queue|
  {
    if st.queue != [] {
      StepDecreases(refs, mark, st);
      var st' := Step(refs, mark, st);
      var ys := st.yielded;
      var ys' := ys + [st.queue[0]];
      assert st'.yielded == ys';
      RunYields(refs, mark, st');
      var r := Run(refs, mark, st');
      assert r.yielded[..|ys'|] == ys';
      assert r.yielded[..|ys|] == ys'[..|ys|] == ys;
      assert r.yielded[|ys|] == ys'[|ys|] == st.queue[0];
    }
  }

  /** Sum of the base sizes of the references listed. */
  function SizeSum(refs: map<nat, Reference>, ids: seq<nat>): nat
    requires forall x :: x in ids ==> x in refs
  {
    if ids == [] then 0 else refs[ids[0]].baseSize + SizeSum(refs, ids[1..])
  }

  /** BaseReference.count_deep_children over the corrected traversal: the number of objects
      reachable from the root. */
  method CountDeepChildren(refs: map<nat, Reference>, root: nat) returns (n: nat)
    requires Graph(refs) && root in refs
    ensures n == |ReachableSet(refs, root)|
  {
    var yielded := BfsChildren(refs, root, MarkChild);
    BfsReachable(refs, root);
    n := |yielded|;
  }

  /** BaseReference.compute_deep_size over the corrected traversal: the base sizes of the
      reachable objects, each counted once. */
  method ComputeDeepSize(refs: map<nat, Reference>, root: nat) returns (size: nat)
    requires Graph(refs) && root in refs
    ensures (BfsSound(refs, MarkChild, root); size == SizeSum(refs, BfsSpec(refs, MarkChild, root)))
  {
    var yielded := BfsChildren(refs, root, MarkChild);
    BfsSound(refs, MarkChild, root);
    size := 0;
    var i := 0;
    while i < |yielded|
      invariant i <= |yielded|
      invariant size + SizeSum(refs, yielded[i..]) == SizeSum(refs, yielded)
    {
      assert yielded[i..][1..] == yielded[i + 1..];
      size := size + refs[yielded[i]].baseSize;
      i := i + 1;
    }
  }

  /** Every node queued or yielded is reachable from the root. */
  ghost predicate Sound(refs: map<nat, Reference>, root: nat, st: Bfs) {
    forall x :: x in st.queue + st.yielded ==> Reachable(refs, root, x)
  }

  /** The children of every yielded node are queued or yielded. */
  predicate ClosedUnder(refs: map<nat, Reference>, done: seq<nat>, pending: seq<nat>)
    requires InTable(refs, done)
  {
    forall y, j :: y in done && 0 <= j < |refs[y].children| && refs[y].children[j].1.Resolved?
                   && refs[y].children[j].1.target.Some?
               ==> refs[y].children[j].1.target.value in pending + done
  }

  /** What the loop keeps: the table holds every node in play, whatever is seen is queued or
      yielded, and nothing yielded has a child that is neither. */
  predicate Tracked(refs: map<nat, Reference>, st: Bfs) {
    && InTable(refs, st.queue) && InTable(refs, st.yielded)
    && (forall x :: x in st.seen ==> x in st.queue + st.yielded)
    && ClosedUnder(refs, st.yielded, st.queue)
  }

  predicate NoDup(xs: seq<nat>) {
    forall a, b :: 0 <= a < b < |xs| ==> xs[a] != xs[b]
  }

  /** What the corrected loop keeps besides: seen is exactly what is queued or yielded, and no
      node is queued or yielded twice. */
  predicate Once(st: Bfs) {
    && st.seen == (set x | x in st.queue + st.yielded)
    && NoDup(st.yielded + st.queue)
  }

  lemma ReachStep(refs: map<nat, Reference>, root: nat, n: nat, x: nat)
    requires Reachable(refs, root, n) && Edge(refs, n, x)
    ensures Reachable(refs, root, x)
  {
    var p :| Path(refs, p) && p[0] == root && p[|p| - 1] == n;
    var p' := p + [x];
    forall i | 0 <= i < |p'| - 1 ensures Edge(refs, p'[i], p'[i + 1]) {
      if i < |p| - 1 {
        assert p'[i] == p[i] && p'[i + 1] == p[i + 1];
      }
    }
    assert Path(refs, p');
  }

  lemma StepTracked(refs: map<nat, Reference>, mark: Mark, st: Bfs)
    requires Graph(refs) && st.queue != [] && Tracked(refs, st)
    ensures Tracked(refs, Step(refs, mark, st))
  {
    var n := st.queue[0];
    var q1 := st.queue[1..];
    var r := Scan(mark, n, refs[n].children, 0, st.seen, q1);
    ScanGrows(mark, n, refs[n].children, 0, st.seen, q1);
    ScanCovers(mark, n, refs[n].children, 0, st.seen, q1);
    var st' := Step(refs, mark, st);
    StepDecreases(refs, mark, st);
    assert st.queue == [n] + q1;
    assert r.1 == q1 + r.1[|q1|..];
    forall x | x in st.queue + st.yielded ensures x in st'.queue + st'.yielded {
      if x in q1 { assert x in r.1; }
    }
    forall x | x in r.0 ensures x in st'.queue + st'.yielded {
      if x !in st.seen && mark == MarkChild { assert x in r.1; }
    }
    forall y, j | y in st'.yielded && 0 <= j < |refs[y].children| && refs[y].children[j].1.Resolved?
                  && refs[y].children[j].1.target.Some?
      ensures refs[y].children[j].1.target.value in st'.queue + st'.yielded
    {
      var c := refs[y].children[j].1.target.value;
      if y in st.yielded {
        assert c in st.queue + st.yielded;
      } else {
        assert y == n;
        if c in r.1[|q1|..] { assert c in r.1; }
      }
    }
  }

  lemma StepSound(refs: map<nat, Reference>, mark: Mark, root: nat, st: Bfs)
    requires Graph(refs) && st.queue != [] && Tracked(refs, st) && Sound(refs, root, st)
    ensures Sound(refs, root, Step(refs, mark, st))
  {
    var n := st.queue[0];
    var q1 := st.queue[1..];
    var ch := refs[n].children;
    var r := Scan(mark, n, ch, 0, st.seen, q1);
    ScanGrows(mark, n, ch, 0, st.seen, q1);
    assert st.queue == [n] + q1;
    assert r.1 == q1 + r.1[|q1|..];
    assert Reachable(refs, root, n);
    forall x | x in r.1 + (st.yielded + [n]) ensures Reachable(refs, root, x) {
      if x in r.1[|q1|..] {
        var j :| 0 <= j < |ch| && ch[j].1 == Resolved(Some(x));
        assert Edge(refs, n, x);
        ReachStep(refs, root, n, x);
      } else if x in r.1 {
        assert x in q1;
      }
    }
  }

  /** Two duplicate-free sequences with nothing in common concatenate to one. */
  lemma NoDupAppend(xs: seq<nat>, ys: seq<nat>)
    requires NoDup(xs) && NoDup(ys) && forall y :: y in ys ==> y !in xs
    ensures NoDup(xs + ys)
  {
    var all := xs + ys;
    forall a, b | 0 <= a < b < |all| ensures all[a] != all[b] {
      if b >= |xs| {
        assert all[b] == ys[b - |xs|] && all[b] in ys;
        if a >= |xs| {
          assert all[a] == ys[a - |xs|];
        } else {
          assert all[a] in xs;
        }
      }
    }
  }

  lemma StepOnce(refs: map<nat, Reference>, st: Bfs)
    requires Graph(refs) && st.queue != [] && InTable(refs, st.queue) && Once(st)
    ensures Once(Step(refs, MarkChild, st))
  {
    var n := st.queue[0];
    var q1 := st.queue[1..];
    ScanGrows(MarkChild, n, refs[n].children, 0, st.seen, q1);
    ScanOnce(n, refs[n].children, 0, st.seen, q1);
    var r := Scan(MarkChild, n, refs[n].children, 0, st.seen, q1);
    NoDupTail(r.1, |q1|);
    assert r.1 == q1 + r.1[|q1|..];
    OnceExtend(st, r.1[|q1|..]);
  }

  /** Popping the head and queueing fresh, distinct nodes that are also marked seen keeps Once. */
  lemma OnceExtend(st: Bfs, added: seq<nat>)
    requires Once(st) && st.queue != []
    requires forall x :: x in added ==> x !in st.seen
    requires NoDup(added)
    ensures Once(Bfs(st.seen + (set x | x in added), st.queue[1..] + added, st.yielded + [st.queue[0]]))
  {
    var old' := st.yielded + st.queue;
    assert (st.yielded + [st.queue[0]]) + (st.queue[1..] + added) == old' + added;
    forall y | y in added ensures y !in old' {
      assert y !in st.seen;
    }
    NoDupAppend(old', added);
    SetOfAppend(old', added);
  }

  lemma NoDupTail(xs: seq<nat>, k: nat)
    requires k <= |xs| && forall a, b :: k <= a < b < |xs| ==> xs[a] != xs[b]
    ensures NoDup(xs[k..])
  {
    forall a, b | 0 <= a < b < |xs| - k ensures xs[k..][a] != xs[k..][b] {
      assert xs[k..][a] == xs[k + a] && xs[k..][b] == xs[k + b];
    }
  }

  lemma SetOfAppend(xs: seq<nat>, ys: seq<nat>)
    ensures (set x | x in xs + ys) == (set x | x in xs) + (set x | x in ys)
  {
  }

  lemma {:induction false} RunKeeps(refs: map<nat, Reference>, mark: Mark, root: nat, st: Bfs)
    requires Graph(refs) && Tracked(refs, st) && Sound(refs, root, st)
    ensures Tracked(refs, Run(refs, mark, st)) && Sound(refs, root, Run(refs, mark, st))
    ensures mark == MarkChild && Once(st) ==> Once(Run(refs, mark, st))
    decreases |refs.Keys - st.seen|, CountIn(st.queue, st.seen), |st.queue|
  {
    if st.queue != [] {
      StepDecreases(refs, mark, st);
      StepTracked(refs, mark, st);
      StepSound(refs, mark, root, st);
      if mark == MarkChild && Once(st) {
        StepOnce(refs, st);
      }
      RunKeeps(refs, mark, root, Step(refs, mark, st));
    }
  }

  /** The start of the traversal: the root seen and queued. */
  lemma StartKeeps(refs: map<nat, Reference>, root: nat)
    requires root in refs
    ensures var st := Bfs({root}, [root], []);
      Tracked(refs, st) && Sound(refs, root, st) && Once(st)
  {
    var p := [root];
    assert Path(refs, p);
  }

  /** A path from inside a set closed under children never leaves it. */
  lemma {:induction false} PathInside(refs: map<nat, Reference>, done: seq<nat>, p: seq<nat>)
    requires InTable(refs, done) && ClosedUnder(refs, done, []) && Path(refs, p) && p[0] in done
    ensures p[|p| - 1] in done
    decreases |p|
  {
    if |p| > 1 {
      var q := p[..|p| - 1];
      assert Path(refs, q) by {
        forall i | 0 <= i < |q| - 1 ensures Edge(refs, q[i], q[i + 1]) {
          assert q[i] == p[i] && q[i + 1] == p[i + 1];
        }
      }
      PathInside(refs, done, q);
      assert Edge(refs, p[|p| - 2], p[|p| - 1]);
      var y := p[|p| - 2];
      var j :| 0 <= j < |refs[y].children| && refs[y].children[j].1 == Resolved(Some(p[|p| - 1]));
      assert refs[y].children[j].1.target.value in [] + done;
    }
  }

  /** bfs_children yields the root first and nothing that cannot be reached from it. */
  lemma BfsSound(refs: map<nat, Reference>, mark: Mark, root: nat)
    requires Graph(refs) && root in refs
    ensures |BfsSpec(refs, mark, root)| > 0 && BfsSpec(refs, mark, root)[0] == root
    ensures forall x :: x in BfsSpec(refs, mark, root) ==> x in refs && Reachable(refs, root, x)
  {
    StartKeeps(refs, root);
    RunKeeps(refs, mark, root, Bfs({root}, [root], []));
    RunYields(refs, mark, Bfs({root}, [root], []));
    var r := Run(refs, mark, Bfs({root}, [root], []));
    assert forall x :: x in r.yielded ==> x in r.queue + r.yielded;
  }

  /** It yields every node reachable from the root, as written and corrected alike. */
  lemma BfsComplete(refs: map<nat, Reference>, mark: Mark, root: nat, x: nat)
    requires Graph(refs) && root in refs && Reachable(refs, root, x)
    ensures x in BfsSpec(refs, mark, root)
  {
    StartKeeps(refs, root);
    RunKeeps(refs, mark, root, Bfs({root}, [root], []));
    BfsSound(refs, mark, root);
    var r := Run(refs, mark, Bfs({root}, [root], []));
    assert r.queue + r.yielded == r.yielded;
    var p :| Path(refs, p) && p[0] == root && p[|p| - 1] == x;
    PathInside(refs, r.yielded, p);
  }

  /** Adding the child to seen, as intended, yields each reachable node exactly once. */
  lemma BfsOnce(refs: map<nat, Reference>, root: nat)
    requires Graph(refs) && root in refs
    ensures NoDup(BfsSpec(refs, MarkChild, root))
  {
    StartKeeps(refs, root);
    RunKeeps(refs, MarkChild, root, Bfs({root}, [root], []));
    var r := Run(refs, MarkChild, Bfs({root}, [root], []));
    assert r.yielded + r.queue == r.yielded;
  }

  /** A root with two fields holding the same child, and that child. */
  function TwinChildren(): map<nat, Reference> {
    map[0 := InstanceReference(0, 24, [(Name(Blocks.Unicode("left")), Resolved(Some(1))), (Name(Blocks.Unicode("right")), Resolved(Some(1)))]),
        1 := InstanceReference(0, 16, [])]
  }

  /** The scans of the root of TwinChildren, as written and as corrected. */
  lemma TwinScans(ch: Children)
    requires ch == [(Name(Blocks.Unicode("left")), Resolved(Some(1))), (Name(Blocks.Unicode("right")), Resolved(Some(1)))]
    ensures Scan(MarkParent, 0, ch, 0, {0}, []) == ({0}, [1, 1])
    ensures Scan(MarkChild, 0, ch, 0, {0}, []) == ({0, 1}, [1])
  {
    assert {0} + {0} == {0} && [] + [1] == [1] && [1] + [1] == [1, 1];
    assert Scan(MarkParent, 0, ch, 2, {0}, [1, 1]) == ({0}, [1, 1]);
    assert Scan(MarkParent, 0, ch, 1, {0}, [1]) == ({0}, [1, 1]);
    assert {0} + {1} == {0, 1};
    assert Scan(MarkChild, 0, ch, 2, {0, 1}, [1]) == ({0, 1}, [1]);
    assert Scan(MarkChild, 0, ch, 1, {0, 1}, [1]) == ({0, 1}, [1]);
  }

  /** As written, the child of TwinChildren is yielded, and its size counted, twice. */
  lemma BfsTwice()
    ensures Graph(TwinChildren())
    ensures BfsSpec(TwinChildren(), MarkParent, 0) == [0, 1, 1]
    ensures SizeSum(TwinChildren(), [0, 1, 1]) == 56
  {
    var refs := TwinChildren();
    assert Graph(refs);
    TwinScans(refs[0].children);
    var s0 := Bfs({0}, [0], []);
    assert s0.queue[1..] == [];
    var s1 := Bfs({0}, [1, 1], [0]);
    assert Step(refs, MarkParent, s0) == s1;
    assert Scan(MarkParent, 1, [], 0, {0}, [1]) == ({0}, [1]);
    var s2 := Bfs({0}, [1], [0, 1]);
    assert Step(refs, MarkParent, s1) == s2;
    var s3 := Bfs({0}, [], [0, 1, 1]);
    assert Step(refs, MarkParent, s2) == s3;
    assert Run(refs, MarkParent, s2) == s3;
    assert Run(refs, MarkParent, s1) == s3;
    assert Run(refs, MarkParent, s0) == s3;
  }

  /** Adding the child to seen, the child of TwinChildren is yielded once. */
  lemma BfsTwiceCorrected()
    ensures Graph(TwinChildren())
    ensures BfsSpec(TwinChildren(), MarkChild, 0) == [0, 1]
  {
    var refs := TwinChildren();
    assert Graph(refs);
    TwinScans(refs[0].children);
    var t0 := Bfs({0}, [0], []);
    assert t0.queue[1..] == [];
    var t1 := Bfs({0, 1}, [1], [0]);
    assert Step(refs, MarkChild, t0) == t1;
    assert Scan(MarkChild, 1, [], 0, {0, 1}, []) == ({0, 1}, []);
    var t2 := Bfs({0, 1}, [], [0, 1]);
    assert Step(refs, MarkChild, t1) == t2;
    assert Run(refs, MarkChild, t1) == t2;
    assert Run(refs, MarkChild, t0) == t2;
  }

  /** The objects reachable from root. */
  ghost function ReachableSet(refs: map<nat, Reference>, root: nat): set<nat> {
    set x | x in refs.Keys && Reachable(refs, root, x)
  }

  /** The elements of a list, as a set. */
  function Elems(xs: seq<nat>): set<nat> {
    set x | x in xs
  }

  /** A list without repeats has as many elements as its set. */
  lemma {:induction false} NoDupCard(xs: seq<nat>)
    requires NoDup(xs)
    ensures |Elems(xs)| == |xs|
  {
    if xs != [] {
      NoDupTail(xs, 1);
      NoDupCard(xs[1..]);
      forall j | 0 <= j < |xs| - 1 ensures xs[1..][j] != xs[0] {
        assert xs[1..][j] == xs[j + 1];
      }
      assert xs[0] !in Elems(xs[1..]);
      assert Elems(xs) == {xs[0]} + Elems(xs[1..]);
    }
  }

  /** The corrected traversal yields exactly the objects reachable from the root, each once. */
  lemma BfsReachable(refs: map<nat, Reference>, root: nat)
    requires Graph(refs) && root in refs
    ensures NoDup(BfsSpec(refs, MarkChild, root))
    ensures Elems(BfsSpec(refs, MarkChild, root)) == ReachableSet(refs, root)
    ensures |BfsSpec(refs, MarkChild, root)| == |ReachableSet(refs, root)|
  {
    var ys := BfsSpec(refs, MarkChild, root);
    BfsOnce(refs, root);
    BfsSound(refs, MarkChild, root);
    forall x | x in ReachableSet(refs, root) ensures x in ys {
      BfsComplete(refs, MarkChild, root, x);
    }
    NoDupCard(ys);
  }
}
