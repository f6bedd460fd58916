/** The sub-records of a heap dump (heap_blocks.py) and the HeapDumpParser that walks them
    (read_next_block and __iter__ of parsers.py). Each `parse` classmethod is a function from what
    the parser sees and where it stands to an Outcome, proved against the layout it decodes; the
    methods below run the same reads on a Parser and are proved equal to those functions. */
module HeapBlocks {
  import opened Wrappers
  import opened BigEndian
  import opened Constants
  import opened Decoding
  import opened Parsers

  /** The classes of HEAP_BLOCK_CLASSES_BY_TAG (the source's own spelling of RootUnkown kept). */
  datatype HeapBlockClass =
    | RootUnkown | RootJniGlobal | RootJniLocal | RootJavaFrame | RootNativeStack
    | RootStickyClass | RootThreadBlock | RootMonitorUsed | RootThreadObject
    | ClassDumpClass | InstanceDumpClass | ObjectArrayDumpClass | PrimitiveArrayDumpClass

  /** HEAP_BLOCK_CLASSES_BY_TAG: sub-record names to the classes that parse them. */
  const HeapBlockClasses: map<string, HeapBlockClass> := map[
    "ROOT_UNKNOWN" := RootUnkown,
    "ROOT_JNI_GLOBAL" := RootJniGlobal,
    "ROOT_JNI_LOCAL" := RootJniLocal,
    "ROOT_JAVA_FRAME" := RootJavaFrame,
    "ROOT_NATIVE_STACK" := RootNativeStack,
    "ROOT_STICKY_CLASS" := RootStickyClass,
    "ROOT_THREAD_BLOCK" := RootThreadBlock,
    "ROOT_MONITOR_USED" := RootMonitorUsed,
    "ROOT_THREAD_OBJECT" := RootThreadObject,
    "CLASS_DUMP" := ClassDumpClass,
    "INSTANCE_DUMP" := InstanceDumpClass,
    "OBJECT_ARRAY_DUMP" := ObjectArrayDumpClass,
    "PRIMITIVE_ARRAY_DUMP" := PrimitiveArrayDumpClass
  ]

  /** The sub-tag code of each class. */
  function SubTagOf(cls: HeapBlockClass): (code: nat)
    ensures code < 256
  {
    match cls
    case RootUnkown => 0xFF
    case RootJniGlobal => 0x01
    case RootJniLocal => 0x02
    case RootJavaFrame => 0x03
    case RootNativeStack => 0x04
    case RootStickyClass => 0x05
    case RootThreadBlock => 0x06
    case RootMonitorUsed => 0x07
    case RootThreadObject => 0x08
    case ClassDumpClass => 0x20
    case InstanceDumpClass => 0x21
    case ObjectArrayDumpClass => 0x22
    case PrimitiveArrayDumpClass => 0x23
  }

  /** The class a sub-tag code selects: HEAP_BLOCK_CLASSES_BY_TAG[HEAP_DUMP_SUB_TAGS[code]], None
      for a code HEAP_DUMP_SUB_TAGS lacks. */
  function SubTagClass(code: int): (r: Option<HeapBlockClass>)
    ensures r.Some? ==> SubTagOf(r.value) == code
  {
    if code == 0xFF then Some(RootUnkown)
    else if code == 0x01 then Some(RootJniGlobal)
    else if code == 0x02 then Some(RootJniLocal)
    else if code == 0x03 then Some(RootJavaFrame)
    else if code == 0x04 then Some(RootNativeStack)
    else if code == 0x05 then Some(RootStickyClass)
    else if code == 0x06 then Some(RootThreadBlock)
    else if code == 0x07 then Some(RootMonitorUsed)
    else if code == 0x08 then Some(RootThreadObject)
    else if code == 0x20 then Some(ClassDumpClass)
    else if code == 0x21 then Some(InstanceDumpClass)
    else if code == 0x22 then Some(ObjectArrayDumpClass)
    else if code == 0x23 then Some(PrimitiveArrayDumpClass)
    else None
  }

  /** SubTagClass is the two lookups of read_next_block: every name in HEAP_DUMP_SUB_TAGS is
      neither HEAP_DUMP_END nor missing from HEAP_BLOCK_CLASSES_BY_TAG, so neither the early
      return for HEAP_DUMP_END nor the KeyError of the second lookup can happen. */
  lemma SubTagClassTable(code: int)
    ensures SubTagClass(code).Some? <==> code in HeapDumpSubTags
    ensures code in HeapDumpSubTags ==>
      && HeapDumpSubTags[code] != "HEAP_DUMP_END" && HeapDumpSubTags[code] in HeapBlockClasses
      && HeapBlockClasses[HeapDumpSubTags[code]] == SubTagClass(code).value
  {
    SubTagsCodes();
    if code in HeapDumpSubTags {
      SubTagClassNamed(code);
    }
  }

  /** The name HEAP_DUMP_SUB_TAGS gives a code maps back to that code's class. */
  lemma SubTagClassNamed(code: int)
    requires code in HeapDumpSubTags
    ensures HeapDumpSubTags[code] != "HEAP_DUMP_END" && HeapDumpSubTags[code] in HeapBlockClasses
    ensures SubTagClass(code).Some? && HeapBlockClasses[HeapDumpSubTags[code]] == SubTagClass(code).value
  {
    SubTagsCodes();
  }

  /** Each class has one sub-tag and each sub-tag one class. */
  lemma SubTagsRoundTrip(cls: HeapBlockClass, code: int)
    ensures SubTagClass(code) == Some(cls) <==> code == SubTagOf(cls)
  {
  }

  /** ClassDump.read_constant, read_static_field and read_instance_field. */
  datatype Entry =
    | PoolConstant(poolIndex: nat, tp: BasicType, value: Value)
    | StaticField(nameId: nat, tp: BasicType, value: Value)
    | InstanceField(nameId: nat, tp: BasicType)

  datatype EntryKind = ConstantKind | StaticKind | InstanceKind

  function KindOf(x: Entry): EntryKind {
    match x
    case PoolConstant(_, _, _) => ConstantKind
    case StaticField(_, _, _) => StaticKind
    case InstanceField(_, _) => InstanceKind
  }

  /** The fixed part of a CLASS_DUMP, read field by field at heap_blocks.py:102-110. */
  datatype ClassHead = ClassHead(
    id: nat, stackTraceSerialNumber: nat, superClassId: nat, classLoaderId: nat,
    signersObjectId: nat, protectionDomainObjectId: nat, reserved1: nat, reserved2: nat,
    instanceSize: nat)

  /** The heap blocks a parse returns. Only the id-only roots construct; every other root raises
      before a block exists, so none has a constructor here. */
  datatype HeapBlock =
    | RootBlock(cls: HeapBlockClass, id: nat)
    | ClassDump(
        id: nat, stackTraceSerialNumber: nat, superClassId: nat, classLoaderId: nat,
        signersObjectId: nat, protectionDomainObjectId: nat, reserved1: nat, reserved2: nat,
        instanceSize: nat, constantsPool: seq<Entry>, staticFields: seq<Entry>,
        instanceFields: seq<Entry>)
    | InstanceDump(id: nat, stackTraceSerialNumber: nat, classObjectId: nat, bytes: seq<byte>)
    | ObjectArrayDump(id: nat, stackTraceSerialNumber: nat, arrayClassObjectId: nat, elements: seq<nat>)
    | PrimitiveArrayDump(id: nat, stackTraceSerialNumber: nat, elementType: BasicType, size: nat)

  /** A consumption leaves the parser within its bound. */
  lemma ConsumedWithin(e: Env, c: Cursor, c2: Cursor, bs: seq<byte>)
    requires Consumed(e, c, c2, bs)
    ensures WithinBound(e, c2)
  {
  }

  // ---------------------------------------------------------------------------------------
  // Constant pool entries and fields

  /** The three entry readers: an i2 pool index or an id name, the type code, and (except for
      instance fields) a value of that type. */
  function EntrySpec(e: Env, c: Cursor, k: EntryKind): (o: Outcome<Entry>)
    ensures o.after.pos >= c.pos && o.after.position >= c.position
    ensures o.result.Success? ==> KindOf(o.result.value) == k
  {
    match k
    case ConstantKind =>
      var index :- UIntSpec(e, c, 2);
      var tp :- ValueTypeSpec(e, index.1);
      var value :- ValueSpec(e, tp.1, tp.0);
      Outcome(Success(PoolConstant(index.0, tp.0, value.0)), value.1)
    case StaticKind =>
      var name :- IdSpec(e, c);
      var tp :- ValueTypeSpec(e, name.1);
      var value :- ValueSpec(e, tp.1, tp.0);
      Outcome(Success(StaticField(name.0, tp.0, value.0)), value.1)
    case InstanceKind =>
      var name :- IdSpec(e, c);
      var tp :- ValueTypeSpec(e, name.1);
      Outcome(Success(InstanceField(name.0, tp.0)), tp.1)
  }

  /** The entries a reader of kind k can return. */
  predicate ValidEntry(idSize: nat, k: EntryKind, x: Entry) {
    && KindOf(x) == k
    && match x
       case PoolConstant(i, tp, v) => i < Pow256(2) && ValidValue(idSize, tp, v)
       case StaticField(n, tp, v) => n < Pow256(IdWidth(idSize)) && ValidValue(idSize, tp, v)
       case InstanceField(n, _) => n < Pow256(IdWidth(idSize))
  }

  /** The code byte of a type. */
  function CodeOf(tp: BasicType): byte {
    Code(tp) as byte
  }

  function EncodeEntry(idSize: nat, x: Entry): seq<byte> {
    match x
    case PoolConstant(i, tp, v) => ToBE(i, 2) + [CodeOf(tp)] + EncodeValue(idSize, tp, v)
    case StaticField(n, tp, v) => ToBE(n, IdWidth(idSize)) + [CodeOf(tp)] + EncodeValue(idSize, tp, v)
    case InstanceField(n, tp) => ToBE(n, IdWidth(idSize)) + [CodeOf(tp)]
  }

  /** The two-part prefix of every entry, a number of width w and a type code. */
  lemma TaggedExact(e: Env, c: Cursor, w: nat, n: nat, tp: BasicType, c2: Cursor)
    ensures var o := UIntSpec(e, c, w);
      (&& o.result.Success? && o.result.value == n
       && ValueTypeSpec(e, o.after) == Outcome(Success(tp), c2))
      <==> n < Pow256(w) && Consumed(e, c, c2, ToBE(n, w) + [CodeOf(tp)])
  {
    var c1 := Advance(e, c, w);
    UIntExact(e, c, w, n, c1);
    ValueTypeExact(e, c1, tp, c2);
    if n < Pow256(w) && Consumed(e, c, c2, ToBE(n, w) + [CodeOf(tp)]) {
      ConsumedSplit(e, c, c2, ToBE(n, w), [CodeOf(tp)]);
    }
    if Consumed(e, c, c1, ToBE(n, w)) && Consumed(e, c1, c2, [CodeOf(tp)]) {
      ConsumedThen(e, c, c1, c2, ToBE(n, w), [CodeOf(tp)]);
    }
  }

  /** The prefix width and number of a constant or static field. */
  function PrefixWidth(idSize: nat, k: EntryKind): nat {
    if k == ConstantKind then 2 else IdWidth(idSize)
  }

  function PrefixOf(x: Entry): nat {
    if x.PoolConstant? then x.poolIndex else x.nameId
  }

  /** read_constant and read_static_field, as a prefix read followed by a value read. */
  lemma ValuedEntryUnfold(e: Env, c: Cursor, k: EntryKind)
    requires k != InstanceKind
    ensures var o1 := UIntSpec(e, c, PrefixWidth(e.idSize, k));
      var o2 := ValueTypeSpec(e, o1.after);
      o1.result.Success? && o2.result.Success? ==>
        var o3 := ValueSpec(e, o2.after, o2.result.value);
        var o := EntrySpec(e, c, k);
        && (o.result.Success? <==> o3.result.Success?)
        && (o.result.Success? ==>
              && o.after == o3.after && KindOf(o.result.value) == k
              && PrefixOf(o.result.value) == o1.result.value
              && o.result.value.tp == o2.result.value && o.result.value.value == o3.result.value)
    ensures var o1 := UIntSpec(e, c, PrefixWidth(e.idSize, k));
      o1.result.Failure? || ValueTypeSpec(e, o1.after).result.Failure? ==> EntrySpec(e, c, k).result.Failure?
  {
  }

  /** read_constant and read_static_field: a prefix of width w, then a value of the type read. */
  lemma ValuedEntryExact(e: Env, c: Cursor, k: EntryKind, x: Entry, c2: Cursor)
    requires k != InstanceKind && KindOf(x) == k
    ensures EntrySpec(e, c, k) == Outcome(Success(x), c2)
        <==> ValidEntry(e.idSize, k, x) && Consumed(e, c, c2, EncodeEntry(e.idSize, x))
  {
    var w := PrefixWidth(e.idSize, k);
    var head := ToBE(PrefixOf(x), w) + [CodeOf(x.tp)];
    var body := EncodeValue(e.idSize, x.tp, x.value);
    ValuedEntryParts(e.idSize, k, x);
    var c1 := Advance(e, c, |head|);
    if ValidEntry(e.idSize, k, x) && Consumed(e, c, c2, head + body) {
      ConsumedSplit(e, c, c2, head, body);
      ValuedEntryParse(e, c, k, x, c1, c2);
    }
    if EntrySpec(e, c, k) == Outcome(Success(x), c2) {
      ValuedEntryRead(e, c, k, x, c1, c2);
      ConsumedThen(e, c, c1, c2, head, body);
    }
  }

  /** A valued entry's encoding is its prefix and type code, then its value. */
  lemma ValuedEntryParts(idSize: nat, k: EntryKind, x: Entry)
    requires k != InstanceKind && KindOf(x) == k
    ensures EncodeEntry(idSize, x)
        == ToBE(PrefixOf(x), PrefixWidth(idSize, k)) + [CodeOf(x.tp)] + EncodeValue(idSize, x.tp, x.value)
    ensures ValidEntry(idSize, k, x)
        <==> PrefixOf(x) < Pow256(PrefixWidth(idSize, k)) && ValidValue(idSize, x.tp, x.value)
  {
  }

  lemma ValuedEntryRead(e: Env, c: Cursor, k: EntryKind, x: Entry, c1: Cursor, c2: Cursor)
    requires k != InstanceKind && KindOf(x) == k
    requires c1 == Advance(e, c, PrefixWidth(e.idSize, k) + 1)
    requires EntrySpec(e, c, k) == Outcome(Success(x), c2)
    ensures PrefixOf(x) < Pow256(PrefixWidth(e.idSize, k)) && ValidValue(e.idSize, x.tp, x.value)
    ensures Consumed(e, c, c1, ToBE(PrefixOf(x), PrefixWidth(e.idSize, k)) + [CodeOf(x.tp)])
    ensures Consumed(e, c1, c2, EncodeValue(e.idSize, x.tp, x.value))
  {
    var w := PrefixWidth(e.idSize, k);
    ValuedEntryUnfold(e, c, k);
    TaggedExact(e, c, w, PrefixOf(x), x.tp, c1);
    ValueExact(e, c1, x.tp, x.value, c2);
  }

  lemma ValuedEntryParse(e: Env, c: Cursor, k: EntryKind, x: Entry, c1: Cursor, c2: Cursor)
    requires k != InstanceKind && KindOf(x) == k
    requires c1 == Advance(e, c, PrefixWidth(e.idSize, k) + 1)
    requires PrefixOf(x) < Pow256(PrefixWidth(e.idSize, k)) && ValidValue(e.idSize, x.tp, x.value)
    requires Consumed(e, c, c1, ToBE(PrefixOf(x), PrefixWidth(e.idSize, k)) + [CodeOf(x.tp)])
    requires Consumed(e, c1, c2, EncodeValue(e.idSize, x.tp, x.value))
    ensures EntrySpec(e, c, k) == Outcome(Success(x), c2)
  {
    var w := PrefixWidth(e.idSize, k);
    ValuedEntryUnfold(e, c, k);
    TaggedExact(e, c, w, PrefixOf(x), x.tp, c1);
    ValueExact(e, c1, x.tp, x.value, c2);
  }

  /** An entry reader succeeds with x exactly on x's encoding. */
  lemma EntryExact(e: Env, c: Cursor, k: EntryKind, x: Entry, c2: Cursor)
    ensures EntrySpec(e, c, k) == Outcome(Success(x), c2)
        <==> ValidEntry(e.idSize, k, x) && Consumed(e, c, c2, EncodeEntry(e.idSize, x))
  {
    if KindOf(x) == k {
      if k == InstanceKind {
        TaggedExact(e, c, IdWidth(e.idSize), x.nameId, x.tp, c2);
      } else {
        ValuedEntryExact(e, c, k, x, c2);
      }
    }
  }

  /** The entry reader of kind k, its valid entries and its encoding, as functions. */
  function EntryReader(e: Env, k: EntryKind): Cursor -> Outcome<Entry> {
    c => EntrySpec(e, c, k)
  }

  function EntryValidity(idSize: nat, k: EntryKind): Entry -> bool {
    x => ValidEntry(idSize, k, x)
  }

  function EntryEncoder(idSize: nat): Entry -> seq<byte> {
    x => EncodeEntry(idSize, x)
  }

  /** `[read(p) for _ in xrange(n)]` with an entry reader. */
  function EntriesSpec(e: Env, c: Cursor, k: EntryKind, n: nat): (o: Outcome<seq<Entry>>)
    ensures o.after.pos >= c.pos && o.after.position >= c.position
  {
    EntryFormat(e, k);
    RepeatAdvances(EntryReader(e, k), c, n);
    Repeat(EntryReader(e, k), c, n)
  }

  predicate ValidEntries(idSize: nat, k: EntryKind, xs: seq<Entry>) {
    AllValid(EntryValidity(idSize, k), xs)
  }

  function EncodeEntries(idSize: nat, xs: seq<Entry>): seq<byte> {
    Concat(EntryEncoder(idSize), xs)
  }

  /** Each entry reader reads exactly the encodings of its valid entries, and never moves back. */
  lemma EntryFormat(e: Env, k: EntryKind)
    ensures ReadsEncoded(e, EntryReader(e, k), EntryValidity(e.idSize, k), EntryEncoder(e.idSize))
    ensures ParsesEncoded(e, EntryReader(e, k), EntryValidity(e.idSize, k), EntryEncoder(e.idSize))
    ensures Advances(EntryReader(e, k))
  {
    forall c | EntryReader(e, k)(c).result.Success?
      ensures EntryValidity(e.idSize, k)(EntryReader(e, k)(c).result.value)
      ensures Consumed(e, c, EntryReader(e, k)(c).after, EntryEncoder(e.idSize)(EntryReader(e, k)(c).result.value))
    {
      var o := EntrySpec(e, c, k);
      EntryExact(e, c, k, o.result.value, o.after);
    }
    forall c, x, c2 | EntryValidity(e.idSize, k)(x) && Consumed(e, c, c2, EntryEncoder(e.idSize)(x))
      ensures EntryReader(e, k)(c) == Outcome(Success(x), c2)
    {
      EntryExact(e, c, k, x, c2);
    }
  }

  /** Entries read off the file from c0 up to c, followed by one more read from c, were read off
      the file from c0. */
  lemma EntriesSnoc(e: Env, c0: Cursor, k: EntryKind, xs: seq<Entry>, c: Cursor, x: Entry, c2: Cursor)
    requires ValidEntries(e.idSize, k, xs)
    requires xs == [] ==> c == c0
    requires xs != [] ==> Consumed(e, c0, c, EncodeEntries(e.idSize, xs))
    requires EntrySpec(e, c, k) == Outcome(Success(x), c2)
    ensures ValidEntries(e.idSize, k, xs + [x]) && Consumed(e, c0, c2, EncodeEntries(e.idSize, xs + [x]))
  {
    EntryFormat(e, k);
    RepeatSnoc(e, EntryReader(e, k), EntryValidity(e.idSize, k), EntryEncoder(e.idSize), c0, xs, c, x, c2);
  }

  /** When the entry after those read off the file from c0 up to c raises, n entries raise the
      same. */
  lemma EntriesRaise(e: Env, c0: Cursor, k: EntryKind, xs: seq<Entry>, c: Cursor, n: nat, err: Error, c2: Cursor)
    requires ValidEntries(e.idSize, k, xs) && |xs| < n
    requires xs == [] ==> c == c0
    requires xs != [] ==> Consumed(e, c0, c, EncodeEntries(e.idSize, xs))
    requires EntrySpec(e, c, k) == Outcome(Failure(err), c2)
    ensures EntriesSpec(e, c0, k, n) == Outcome(Failure(err), c2)
  {
    EntryFormat(e, k);
    RepeatRaise(e, EntryReader(e, k), EntryValidity(e.idSize, k), EntryEncoder(e.idSize), c0, xs, c, n, err, c2);
  }

  /** Entries read off the file from c0 up to c2 read back as themselves. */
  lemma EntriesParse(e: Env, c0: Cursor, k: EntryKind, xs: seq<Entry>, c2: Cursor)
    requires ValidEntries(e.idSize, k, xs)
    requires xs == [] ==> c2 == c0
    requires xs != [] ==> Consumed(e, c0, c2, EncodeEntries(e.idSize, xs))
    ensures EntriesSpec(e, c0, k, |xs|) == Outcome(Success(xs), c2)
  {
    if xs != [] {
      EntryFormat(e, k);
      RepeatParse(e, EntryReader(e, k), EntryValidity(e.idSize, k), EntryEncoder(e.idSize), c0, xs, c2);
    }
  }

  /** n entries read from within the bound succeed with xs exactly on the encodings of xs. */
  lemma EntriesExact(e: Env, c: Cursor, k: EntryKind, n: nat, xs: seq<Entry>, c2: Cursor)
    requires WithinBound(e, c)
    ensures EntriesSpec(e, c, k, n) == Outcome(Success(xs), c2)
        <==> |xs| == n && ValidEntries(e.idSize, k, xs) && Consumed(e, c, c2, EncodeEntries(e.idSize, xs))
  {
    EntryFormat(e, k);
    RepeatExact(e, EntryReader(e, k), EntryValidity(e.idSize, k), EntryEncoder(e.idSize), c, n, xs, c2);
  }

  /** One of ClassDump's three lists: an i2 count, then that many entries. */
  function ListSpec(e: Env, c: Cursor, k: EntryKind): (o: Outcome<seq<Entry>>)
    ensures o.after.pos >= c.pos && o.after.position >= c.position
  {
    var n :- UIntSpec(e, c, 2);
    EntriesSpec(e, n.1, k, n.0)
  }

  function EncodeList(idSize: nat, xs: seq<Entry>): seq<byte> {
    ToBE(|xs|, 2) + EncodeEntries(idSize, xs)
  }

  /** A list reads as xs exactly on its count and entries; it holds at most 65535 entries. */
  lemma ListExact(e: Env, c: Cursor, k: EntryKind, xs: seq<Entry>, c2: Cursor)
    ensures ListSpec(e, c, k) == Outcome(Success(xs), c2)
        <==> (&& |xs| < Pow256(2) && ValidEntries(e.idSize, k, xs)
              && Consumed(e, c, c2, EncodeList(e.idSize, xs)))
  {
    var c1 := Advance(e, c, 2);
    var o := UIntSpec(e, c, 2);
    if ListSpec(e, c, k) == Outcome(Success(xs), c2) {
      UIntExact(e, c, 2, o.result.value, o.after);
      EntriesExact(e, c1, k, o.result.value, xs, c2);
      ConsumedThen(e, c, c1, c2, ToBE(|xs|, 2), EncodeEntries(e.idSize, xs));
    }
    if && |xs| < Pow256(2) && ValidEntries(e.idSize, k, xs)
       && Consumed(e, c, c2, EncodeList(e.idSize, xs)) {
      ConsumedSplit(e, c, c2, ToBE(|xs|, 2), EncodeEntries(e.idSize, xs));
      UIntExact(e, c, 2, |xs|, c1);
      EntriesExact(e, c1, k, |xs|, xs, c2);
    }
  }

  // ---------------------------------------------------------------------------------------
  // CLASS_DUMP

  /** The widths of ClassDump.parse's reads up to the instance size: an id, an i4, six ids and
      an i4. */
  function HeadWidths(idSize: nat): seq<nat> {
    var w := IdWidth(idSize);
    [w, 4, w, w, w, w, w, w, 4]
  }

  /** A class head's numbers in the order they are read. */
  function HeadFields(h: ClassHead): seq<nat> {
    [h.id, h.stackTraceSerialNumber, h.superClassId, h.classLoaderId, h.signersObjectId,
     h.protectionDomainObjectId, h.reserved1, h.reserved2, h.instanceSize]
  }

  function HeadOfFields(ns: seq<nat>): ClassHead
    requires |ns| == 9
  {
    ClassHead(ns[0], ns[1], ns[2], ns[3], ns[4], ns[5], ns[6], ns[7], ns[8])
  }

  /** ClassDump.parse up to the instance size. */
  function ClassHeadSpec(e: Env, c: Cursor): (o: Outcome<ClassHead>)
    ensures o.after.pos >= c.pos && o.after.position >= c.position
  {
    var ns :- UIntsSpec(e, c, HeadWidths(e.idSize));
    Outcome(Success(HeadOfFields(ns.0)), ns.1)
  }

  predicate ValidClassHead(idSize: nat, h: ClassHead) {
    Fit(HeadFields(h), HeadWidths(idSize))
  }

  function EncodeClassHead(idSize: nat, h: ClassHead): seq<byte> {
    EncodeUInts(HeadFields(h), HeadWidths(idSize))
  }

  /** The class head reads as h exactly on h's encoding. */
  lemma ClassHeadExact(e: Env, c: Cursor, h: ClassHead, c2: Cursor)
    ensures ClassHeadSpec(e, c) == Outcome(Success(h), c2)
        <==> ValidClassHead(e.idSize, h) && Consumed(e, c, c2, EncodeClassHead(e.idSize, h))
  {
    var ws := HeadWidths(e.idSize);
    var o := UIntsSpec(e, c, ws);
    UIntsExact(e, c, ws, HeadFields(h), c2);
    if o.result.Success? {
      HeadFieldsOf(o.result.value);
    }
  }

  lemma HeadFieldsOf(ns: seq<nat>)
    requires |ns| == 9
    ensures HeadFields(HeadOfFields(ns)) == ns
  {
  }

  /** ClassDump.parse: the head, then the constant pool, the static fields and the instance
      fields, each an i2 count followed by its entries. */
  function ClassDumpSpec(e: Env, c: Cursor): (o: Outcome<HeapBlock>)
    ensures o.after.pos >= c.pos && o.after.position >= c.position
  {
    var h :- ClassHeadSpec(e, c);
    var constants :- ListSpec(e, h.1, ConstantKind);
    var statics :- ListSpec(e, constants.1, StaticKind);
    var fields :- ListSpec(e, statics.1, InstanceKind);
    Outcome(Success(ClassDumpOf(h.0, constants.0, statics.0, fields.0)), fields.1)
  }

  function ClassDumpOf(h: ClassHead, constants: seq<Entry>, statics: seq<Entry>, fields: seq<Entry>): HeapBlock {
    ClassDump(h.id, h.stackTraceSerialNumber, h.superClassId, h.classLoaderId, h.signersObjectId,
              h.protectionDomainObjectId, h.reserved1, h.reserved2, h.instanceSize,
              constants, statics, fields)
  }

  function HeadOf(b: HeapBlock): ClassHead
    requires b.ClassDump?
  {
    ClassHead(b.id, b.stackTraceSerialNumber, b.superClassId, b.classLoaderId, b.signersObjectId,
              b.protectionDomainObjectId, b.reserved1, b.reserved2, b.instanceSize)
  }

  predicate ValidClassDump(idSize: nat, b: HeapBlock)
    requires b.ClassDump?
  {
    && ValidClassHead(idSize, HeadOf(b))
    && |b.constantsPool| < Pow256(2) && ValidEntries(idSize, ConstantKind, b.constantsPool)
    && |b.staticFields| < Pow256(2) && ValidEntries(idSize, StaticKind, b.staticFields)
    && |b.instanceFields| < Pow256(2) && ValidEntries(idSize, InstanceKind, b.instanceFields)
  }

  function EncodeClassDump(idSize: nat, b: HeapBlock): seq<byte>
    requires b.ClassDump?
  {
    EncodeClassHead(idSize, HeadOf(b)) + EncodeList(idSize, b.constantsPool)
    + EncodeList(idSize, b.staticFields) + EncodeList(idSize, b.instanceFields)
  }

  /** What ClassDump.parse reads as, it was encoded as. */
  lemma ClassDumpRead(e: Env, c: Cursor)
    ensures var o := ClassDumpSpec(e, c);
      o.result.Success? ==>
        && o.result.value.ClassDump? && ValidClassDump(e.idSize, o.result.value)
        && Consumed(e, c, o.after, EncodeClassDump(e.idSize, o.result.value))
  {
    var h := ClassHeadSpec(e, c);
    if h.result.Success? {
      ClassHeadExact(e, c, h.result.value, h.after);
      var l1 := ListSpec(e, h.after, ConstantKind);
      if l1.result.Success? {
        ListExact(e, h.after, ConstantKind, l1.result.value, l1.after);
        var l2 := ListSpec(e, l1.after, StaticKind);
        if l2.result.Success? {
          ListExact(e, l1.after, StaticKind, l2.result.value, l2.after);
          var l3 := ListSpec(e, l2.after, InstanceKind);
          if l3.result.Success? {
            ListExact(e, l2.after, InstanceKind, l3.result.value, l3.after);
            var b := ClassDumpOf(h.result.value, l1.result.value, l2.result.value, l3.result.value);
            assert ClassDumpSpec(e, c) == Outcome(Success(b), l3.after);
            assert HeadOf(b) == h.result.value;
            var p := EncodeClassHead(e.idSize, HeadOf(b));
            ConsumedThen(e, c, h.after, l1.after, p, EncodeList(e.idSize, b.constantsPool));
            p := p + EncodeList(e.idSize, b.constantsPool);
            ConsumedThen(e, c, l1.after, l2.after, p, EncodeList(e.idSize, b.staticFields));
            p := p + EncodeList(e.idSize, b.staticFields);
            ConsumedThen(e, c, l2.after, l3.after, p, EncodeList(e.idSize, b.instanceFields));
            assert EncodeClassDump(e.idSize, b) == p + EncodeList(e.idSize, b.instanceFields);
          }
        }
      }
    }
  }

  /** An encoded class dump reads back as itself. */
  lemma ClassDumpParse(e: Env, c: Cursor, b: HeapBlock, c4: Cursor)
    requires b.ClassDump? && ValidClassDump(e.idSize, b) && Consumed(e, c, c4, EncodeClassDump(e.idSize, b))
    ensures ClassDumpSpec(e, c) == Outcome(Success(b), c4)
  {
    var p1 := EncodeClassHead(e.idSize, HeadOf(b));
    var p2 := p1 + EncodeList(e.idSize, b.constantsPool);
    var p3 := p2 + EncodeList(e.idSize, b.staticFields);
    ConsumedSplit(e, c, c4, p3, EncodeList(e.idSize, b.instanceFields));
    var c3 := Advance(e, c, |p3|);
    ConsumedSplit(e, c, c3, p2, EncodeList(e.idSize, b.staticFields));
    var c2 := Advance(e, c, |p2|);
    ConsumedSplit(e, c, c2, p1, EncodeList(e.idSize, b.constantsPool));
    var c1 := Advance(e, c, |p1|);
    ClassHeadExact(e, c, HeadOf(b), c1);
    ListExact(e, c1, ConstantKind, b.constantsPool, c2);
    ListExact(e, c2, StaticKind, b.staticFields, c3);
    ListExact(e, c3, InstanceKind, b.instanceFields, c4);
  }

  /** ClassDump.parse succeeds with b exactly on b's encoding. */
  lemma ClassDumpExact(e: Env, c: Cursor, b: HeapBlock, c4: Cursor)
    ensures ClassDumpSpec(e, c) == Outcome(Success(b), c4)
        <==> b.ClassDump? && ValidClassDump(e.idSize, b) && Consumed(e, c, c4, EncodeClassDump(e.idSize, b))
  {
    ClassDumpRead(e, c);
    if b.ClassDump? && ValidClassDump(e.idSize, b) && Consumed(e, c, c4, EncodeClassDump(e.idSize, b)) {
      ClassDumpParse(e, c, b, c4);
    }
  }

  // ---------------------------------------------------------------------------------------
  // INSTANCE_DUMP

  /** The widths of InstanceDump.parse's first reads: an id, an i4, the class id and an i4 byte
      count. */
  function InstanceWidths(idSize: nat): seq<nat> {
    var w := IdWidth(idSize);
    [w, 4, w, 4]
  }

  /** InstanceDump.parse: its four numbers, then as many bytes as the last of them says. */
  function InstanceDumpSpec(e: Env, c: Cursor): (o: Outcome<HeapBlock>)
    ensures o.after.pos >= c.pos && o.after.position >= c.position
  {
    var ns :- UIntsSpec(e, c, InstanceWidths(e.idSize));
    var bytes :- ReadSpec(e, ns.1, ns.0[3]);
    Outcome(Success(InstanceDump(ns.0[0], ns.0[1], ns.0[2], bytes.0)), bytes.1)
  }

  /** An instance dump's numbers in the order they are read. */
  function InstanceFields(b: HeapBlock): seq<nat>
    requires b.InstanceDump?
  {
    [b.id, b.stackTraceSerialNumber, b.classObjectId, |b.bytes|]
  }

  predicate ValidInstanceDump(idSize: nat, b: HeapBlock)
    requires b.InstanceDump?
  {
    Fit(InstanceFields(b), InstanceWidths(idSize))
  }

  function EncodeInstanceDump(idSize: nat, b: HeapBlock): seq<byte>
    requires b.InstanceDump?
  {
    EncodeUInts(InstanceFields(b), InstanceWidths(idSize)) + b.bytes
  }

  /** The four numbers that start an instance dump, with the bytes after them. */
  lemma InstanceFieldsOf(ns: seq<nat>, bytes: seq<byte>)
    requires |ns| == 4 && ns[3] == |bytes|
    ensures InstanceFields(InstanceDump(ns[0], ns[1], ns[2], bytes)) == ns
  {
  }

  /** InstanceDump.parse succeeds with b exactly on b's encoding. */
  lemma InstanceDumpExact(e: Env, c: Cursor, b: HeapBlock, c2: Cursor)
    ensures InstanceDumpSpec(e, c) == Outcome(Success(b), c2)
        <==> b.InstanceDump? && ValidInstanceDump(e.idSize, b) && Consumed(e, c, c2, EncodeInstanceDump(e.idSize, b))
  {
    var ws := InstanceWidths(e.idSize);
    var o := UIntsSpec(e, c, ws);
    if InstanceDumpSpec(e, c) == Outcome(Success(b), c2) {
      var ns := o.result.value;
      InstanceFieldsOf(ns, b.bytes);
      UIntsExact(e, c, ws, ns, o.after);
      ReadExact(e, o.after, |b.bytes|, b.bytes, c2);
      ConsumedThen(e, c, o.after, c2, EncodeUInts(ns, ws), b.bytes);
    }
    if b.InstanceDump? && ValidInstanceDump(e.idSize, b) && Consumed(e, c, c2, EncodeInstanceDump(e.idSize, b)) {
      var ns := InstanceFields(b);
      var p := EncodeUInts(ns, ws);
      var c1 := Advance(e, c, |p|);
      ConsumedSplit(e, c, c2, p, b.bytes);
      UIntsExact(e, c, ws, ns, c1);
      ReadExact(e, c1, |b.bytes|, b.bytes, c2);
    }
  }

  // ---------------------------------------------------------------------------------------
  // OBJECT_ARRAY_DUMP

  /** read_id, the ids it can return and their encoding, as functions. */
  function IdReader(e: Env): Cursor -> Outcome<nat> {
    c => IdSpec(e, c)
  }

  function IdValidity(w: nat): nat -> bool {
    x => x < Pow256(w)
  }

  function IdEncoder(w: nat): nat -> seq<byte> {
    x => ToBE(x, w)
  }

  /** `[p.read_id() for _ in xrange(n)]`. */
  function IdsSpec(e: Env, c: Cursor, n: nat): (o: Outcome<seq<nat>>)
    ensures o.after.pos >= c.pos && o.after.position >= c.position
  {
    IdFormat(e);
    RepeatAdvances(IdReader(e), c, n);
    Repeat(IdReader(e), c, n)
  }

  function EncodeIds(w: nat, xs: seq<nat>): seq<byte> {
    Concat(IdEncoder(w), xs)
  }

  predicate ValidIds(w: nat, xs: seq<nat>) {
    AllValid(IdValidity(w), xs)
  }

  /** read_id reads exactly the encodings of ids of its width, and never moves back. */
  lemma IdFormat(e: Env)
    ensures ReadsEncoded(e, IdReader(e), IdValidity(IdWidth(e.idSize)), IdEncoder(IdWidth(e.idSize)))
    ensures ParsesEncoded(e, IdReader(e), IdValidity(IdWidth(e.idSize)), IdEncoder(IdWidth(e.idSize)))
    ensures Advances(IdReader(e))
  {
    var w := IdWidth(e.idSize);
    forall c | IdReader(e)(c).result.Success?
      ensures IdValidity(w)(IdReader(e)(c).result.value)
      ensures Consumed(e, c, IdReader(e)(c).after, IdEncoder(w)(IdReader(e)(c).result.value))
    {
      var o := IdSpec(e, c);
      IdExact(e, c, o.result.value, o.after);
    }
    forall c, x, c2 | IdValidity(w)(x) && Consumed(e, c, c2, IdEncoder(w)(x))
      ensures IdReader(e)(c) == Outcome(Success(x), c2)
    {
      IdExact(e, c, x, c2);
    }
  }

  /** n ids read from within the bound succeed with xs exactly on the encodings of xs. */
  lemma IdsExact(e: Env, c: Cursor, n: nat, xs: seq<nat>, c2: Cursor)
    requires WithinBound(e, c)
    ensures IdsSpec(e, c, n) == Outcome(Success(xs), c2)
        <==> |xs| == n && ValidIds(IdWidth(e.idSize), xs) && Consumed(e, c, c2, EncodeIds(IdWidth(e.idSize), xs))
  {
    IdFormat(e);
    var w := IdWidth(e.idSize);
    RepeatExact(e, IdReader(e), IdValidity(w), IdEncoder(w), c, n, xs, c2);
  }

  /** The widths of ObjectArrayDump.parse's first reads: an id, an i4, an i4 element count and
      the array class id. */
  function ObjectArrayWidths(idSize: nat): seq<nat> {
    var w := IdWidth(idSize);
    [w, 4, 4, w]
  }

  /** ObjectArrayDump.parse: its four numbers, then as many element ids as the third says. */
  function ObjectArrayDumpSpec(e: Env, c: Cursor): (o: Outcome<HeapBlock>)
    ensures o.after.pos >= c.pos && o.after.position >= c.position
  {
    var ns :- UIntsSpec(e, c, ObjectArrayWidths(e.idSize));
    var elements :- IdsSpec(e, ns.1, ns.0[2]);
    Outcome(Success(ObjectArrayDump(ns.0[0], ns.0[1], ns.0[3], elements.0)), elements.1)
  }

  /** An object array dump's numbers in the order they are read. */
  function ObjectArrayFields(b: HeapBlock): seq<nat>
    requires b.ObjectArrayDump?
  {
    [b.id, b.stackTraceSerialNumber, |b.elements|, b.arrayClassObjectId]
  }

  predicate ValidObjectArrayDump(idSize: nat, b: HeapBlock)
    requires b.ObjectArrayDump?
  {
    Fit(ObjectArrayFields(b), ObjectArrayWidths(idSize)) && ValidIds(IdWidth(idSize), b.elements)
  }

  function EncodeObjectArrayDump(idSize: nat, b: HeapBlock): seq<byte>
    requires b.ObjectArrayDump?
  {
    EncodeUInts(ObjectArrayFields(b), ObjectArrayWidths(idSize)) + EncodeIds(IdWidth(idSize), b.elements)
  }

  /** The four numbers that start an object array dump, with the elements after them. */
  lemma ObjectArrayFieldsOf(ns: seq<nat>, elements: seq<nat>)
    requires |ns| == 4 && ns[2] == |elements|
    ensures ObjectArrayFields(ObjectArrayDump(ns[0], ns[1], ns[3], elements)) == ns
  {
  }

  /** ObjectArrayDump.parse succeeds with b exactly on b's encoding. */
  lemma ObjectArrayDumpExact(e: Env, c: Cursor, b: HeapBlock, c2: Cursor)
    ensures ObjectArrayDumpSpec(e, c) == Outcome(Success(b), c2)
        <==> b.ObjectArrayDump? && ValidObjectArrayDump(e.idSize, b) && Consumed(e, c, c2, EncodeObjectArrayDump(e.idSize, b))
  {
    var ws := ObjectArrayWidths(e.idSize);
    var w := IdWidth(e.idSize);
    var o := UIntsSpec(e, c, ws);
    if ObjectArrayDumpSpec(e, c) == Outcome(Success(b), c2) {
      var ns := o.result.value;
      UIntsExact(e, c, ws, ns, o.after);
      ConsumedWithin(e, c, o.after, EncodeUInts(ns, ws));
      IdsExact(e, o.after, ns[2], b.elements, c2);
      ObjectArrayFieldsOf(ns, b.elements);
      ConsumedThen(e, c, o.after, c2, EncodeUInts(ns, ws), EncodeIds(w, b.elements));
    }
    if b.ObjectArrayDump? && ValidObjectArrayDump(e.idSize, b) && Consumed(e, c, c2, EncodeObjectArrayDump(e.idSize, b)) {
      var ns := ObjectArrayFields(b);
      var p := EncodeUInts(ns, ws);
      var c1 := Advance(e, c, |p|);
      ConsumedSplit(e, c, c2, p, EncodeIds(w, b.elements));
      UIntsExact(e, c, ws, ns, c1);
      ConsumedWithin(e, c, c1, p);
      IdsExact(e, c1, |b.elements|, b.elements, c2);
    }
  }

  // ---------------------------------------------------------------------------------------
  // PRIMITIVE_ARRAY_DUMP

  /** The widths of PrimitiveArrayDump.parse's first reads: an id, an i4 and an i4 element
      count. */
  function PrimitiveArrayWidths(idSize: nat): seq<nat> {
    [IdWidth(idSize), 4, 4]
  }

  /** PrimitiveArrayDump.parse: its three numbers and the element type; the elements are skipped
      with a relative seek of type_size(type) * count, which may pass the end of the file. */
  function PrimitiveArrayDumpSpec(e: Env, c: Cursor): (o: Outcome<HeapBlock>)
    ensures o.after.pos >= c.pos && o.after.position >= c.position
  {
    var ns :- UIntsSpec(e, c, PrimitiveArrayWidths(e.idSize));
    var tp :- ValueTypeSpec(e, ns.1);
    var skip :- SeekSpec(e, tp.1, SkipBytes(e.idSize, tp.0, ns.0[2]));
    Outcome(Success(PrimitiveArrayDump(ns.0[0], ns.0[1], tp.0, ns.0[2])), skip.1)
  }

  /** A primitive array dump's numbers in the order they are read. */
  function PrimitiveArrayFields(b: HeapBlock): seq<nat>
    requires b.PrimitiveArrayDump?
  {
    [b.id, b.stackTraceSerialNumber, b.size]
  }

  predicate ValidPrimitiveArrayDump(idSize: nat, b: HeapBlock)
    requires b.PrimitiveArrayDump?
  {
    Fit(PrimitiveArrayFields(b), PrimitiveArrayWidths(idSize))
  }

  /** The bytes a primitive array dump reads; its elements are skipped, not read. */
  function EncodePrimitiveArrayDump(idSize: nat, b: HeapBlock): seq<byte>
    requires b.PrimitiveArrayDump?
  {
    EncodeUInts(PrimitiveArrayFields(b), PrimitiveArrayWidths(idSize)) + [CodeOf(b.elementType)]
  }

  lemma PrimitiveArrayFieldsOf(ns: seq<nat>, tp: BasicType)
    requires |ns| == 3
    ensures PrimitiveArrayFields(PrimitiveArrayDump(ns[0], ns[1], tp, ns[2])) == ns
  {
  }

  /** The number of bytes skipped over size elements of type tp: type_size(tp) * size. */
  function SkipBytes(idSize: nat, tp: BasicType, size: nat): nat {
    TypeSize(idSize, tp) * size
  }

  function ElementBytes(idSize: nat, b: HeapBlock): nat
    requires b.PrimitiveArrayDump?
  {
    SkipBytes(idSize, b.elementType, b.size)
  }

  /** Skipping n bytes from c lands at c2, within the bound; the bytes need not exist. */
  predicate Skipped(e: Env, c: Cursor, c2: Cursor, n: nat) {
    c2 == Advance(e, c, n) && WithinBound(e, c2)
  }

  /** A primitive array dump is laid out at c, ending at c5: its header is in the file and the
      skip over its elements stays within the bound. */
  predicate PrimitiveArrayLaid(e: Env, c: Cursor, b: HeapBlock, c5: Cursor)
    requires b.PrimitiveArrayDump?
  {
    var c4 := Advance(e, c, |EncodePrimitiveArrayDump(e.idSize, b)|);
    Consumed(e, c, c4, EncodePrimitiveArrayDump(e.idSize, b)) && Skipped(e, c4, c5, ElementBytes(e.idSize, b))
  }

  /** What PrimitiveArrayDump.parse reads as was laid out as such. */
  lemma PrimitiveArrayDumpRead(e: Env, c: Cursor)
    ensures var o := PrimitiveArrayDumpSpec(e, c);
      o.result.Success? ==>
        && o.result.value.PrimitiveArrayDump? && ValidPrimitiveArrayDump(e.idSize, o.result.value)
        && PrimitiveArrayLaid(e, c, o.result.value, o.after)
  {
    var ws := PrimitiveArrayWidths(e.idSize);
    var o := PrimitiveArrayDumpSpec(e, c);
    if o.result.Success? {
      var b := o.result.value;
      var h := UIntsSpec(e, c, ws);
      var ns := h.result.value;
      var c4 := Advance(e, h.after, 1);
      UIntsExact(e, c, ws, ns, h.after);
      PrimitiveArrayFieldsOf(ns, b.elementType);
      ValueTypeExact(e, h.after, b.elementType, c4);
      ConsumedThen(e, c, h.after, c4, EncodeUInts(ns, ws), [CodeOf(b.elementType)]);
    }
  }

  /** A laid-out primitive array dump reads back as itself. */
  lemma PrimitiveArrayDumpParse(e: Env, c: Cursor, b: HeapBlock, c5: Cursor)
    requires b.PrimitiveArrayDump? && ValidPrimitiveArrayDump(e.idSize, b) && PrimitiveArrayLaid(e, c, b, c5)
    ensures PrimitiveArrayDumpSpec(e, c) == Outcome(Success(b), c5)
  {
    var ws := PrimitiveArrayWidths(e.idSize);
    var ns := PrimitiveArrayFields(b);
    var p := EncodeUInts(ns, ws);
    var c4 := Advance(e, c, |EncodePrimitiveArrayDump(e.idSize, b)|);
    ConsumedSplit(e, c, c4, p, [CodeOf(b.elementType)]);
    var c3 := Advance(e, c, |p|);
    UIntsExact(e, c, ws, ns, c3);
    ValueTypeExact(e, c3, b.elementType, c4);
  }

  /** PrimitiveArrayDump.parse succeeds with b exactly when b is laid out at c. */
  lemma PrimitiveArrayDumpExact(e: Env, c: Cursor, b: HeapBlock, c5: Cursor)
    ensures PrimitiveArrayDumpSpec(e, c) == Outcome(Success(b), c5)
        <==> b.PrimitiveArrayDump? && ValidPrimitiveArrayDump(e.idSize, b) && PrimitiveArrayLaid(e, c, b, c5)
  {
    PrimitiveArrayDumpRead(e, c);
    if b.PrimitiveArrayDump? && ValidPrimitiveArrayDump(e.idSize, b) && PrimitiveArrayLaid(e, c, b, c5) {
      PrimitiveArrayDumpParse(e, c, b, c5);
    }
  }

  // ---------------------------------------------------------------------------------------
  // Roots

  /** BaseOnlyIdHeapDumpBlock.parse (RootUnkown, RootStickyClass, RootMonitorUsed): one id. */
  function RootIdSpec(e: Env, c: Cursor, cls: HeapBlockClass): (o: Outcome<HeapBlock>)
    ensures o.after.pos >= c.pos && o.after.position >= c.position
  {
    var id :- IdSpec(e, c);
    Outcome(Success(RootBlock(cls, id.0)), id.1)
  }

  /** BaseThreadHeapDumpBlock.parse (RootNativeStack, RootThreadBlock): an id and an i4 are read,
      then the constructor's `super(BaseThreadFrameHeadDumpBlock, self)` raises TypeError, since
      the instance is no BaseThreadFrameHeadDumpBlock. */
  function ThreadRootSpec(e: Env, c: Cursor): (o: Outcome<HeapBlock>)
    ensures o.after.pos >= c.pos && o.after.position >= c.position
  {
    var id :- IdSpec(e, c);
    var serial :- UIntSpec(e, id.1, 4);
    Outcome(Failure(TypeError), serial.1)
  }

  /** BaseThreadFrameHeadDumpBlock.parse (RootJniLocal, RootJavaFrame) and RootThreadObject.parse:
      an id and two i4s are read, then the constructor raises TypeError. For the frame roots the
      super chain reaches BaseThreadHeapDumpBlock.__init__ a second time with one argument;
      RootThreadObject is no BaseThreadFrameHeadDumpBlock. */
  function ThreadFrameRootSpec(e: Env, c: Cursor): (o: Outcome<HeapBlock>)
    ensures o.after.pos >= c.pos && o.after.position >= c.position
  {
    var id :- IdSpec(e, c);
    var serial :- UIntSpec(e, id.1, 4);
    var frame :- UIntSpec(e, serial.1, 4);
    Outcome(Failure(TypeError), frame.1)
  }

  /** The thread roots never produce a block: they raise TypeError exactly when all their fields
      are in the file and within the bound, having consumed those fields, and otherwise the error
      of the first read that fails. */
  lemma ThreadRootsRaise(e: Env, c: Cursor)
    ensures var n := IdWidth(e.idSize) + 4;
      && (ThreadRootSpec(e, c).result == Failure(TypeError)
          <==> c.pos + n <= |e.data| && (e.counting ==> InBound(e, c.position + n)))
      && (ThreadRootSpec(e, c).result == Failure(TypeError) ==> ThreadRootSpec(e, c).after == Advance(e, c, n))
    ensures var n := IdWidth(e.idSize) + 8;
      && (ThreadFrameRootSpec(e, c).result == Failure(TypeError)
          <==> c.pos + n <= |e.data| && (e.counting ==> InBound(e, c.position + n)))
      && (ThreadFrameRootSpec(e, c).result == Failure(TypeError) ==> ThreadFrameRootSpec(e, c).after == Advance(e, c, n))
  {
    var w := IdWidth(e.idSize);
    var c1 := Advance(e, c, w);
    var c2 := Advance(e, c1, 4);
    UIntSucceeds(e, c, w);
    UIntSucceeds(e, c1, 4);
    UIntSucceeds(e, c2, 4);
  }

  // ---------------------------------------------------------------------------------------
  // Dispatch

  /** `HEAP_BLOCK_CLASSES_BY_TAG[name].parse(p)`. RootJniGlobal spells its method `prase`, so it
      has no `parse` and the lookup raises AttributeError before anything is read. */
  function ParseSpec(e: Env, c: Cursor, cls: HeapBlockClass): (o: Outcome<HeapBlock>)
    ensures o.after.pos >= c.pos && o.after.position >= c.position
  {
    match cls
    case RootUnkown => RootIdSpec(e, c, cls)
    case RootStickyClass => RootIdSpec(e, c, cls)
    case RootMonitorUsed => RootIdSpec(e, c, cls)
    case RootJniGlobal => Outcome(Failure(AttributeError), c)
    case RootNativeStack => ThreadRootSpec(e, c)
    case RootThreadBlock => ThreadRootSpec(e, c)
    case RootJniLocal => ThreadFrameRootSpec(e, c)
    case RootJavaFrame => ThreadFrameRootSpec(e, c)
    case RootThreadObject => ThreadFrameRootSpec(e, c)
    case ClassDumpClass => ClassDumpSpec(e, c)
    case InstanceDumpClass => InstanceDumpSpec(e, c)
    case ObjectArrayDumpClass => ObjectArrayDumpSpec(e, c)
    case PrimitiveArrayDumpClass => PrimitiveArrayDumpSpec(e, c)
  }

  /** The class whose parse returns b. */
  function ClassOf(b: HeapBlock): HeapBlockClass {
    match b
    case RootBlock(cls, _) => cls
    case ClassDump(_, _, _, _, _, _, _, _, _, _, _, _) => ClassDumpClass
    case InstanceDump(_, _, _, _) => InstanceDumpClass
    case ObjectArrayDump(_, _, _, _) => ObjectArrayDumpClass
    case PrimitiveArrayDump(_, _, _, _) => PrimitiveArrayDumpClass
  }

  /** The blocks a parse can return. */
  predicate ValidBlock(idSize: nat, b: HeapBlock) {
    match b
    case RootBlock(cls, id) =>
      (cls == RootUnkown || cls == RootStickyClass || cls == RootMonitorUsed) && id < Pow256(IdWidth(idSize))
    case ClassDump(_, _, _, _, _, _, _, _, _, _, _, _) => ValidClassDump(idSize, b)
    case InstanceDump(_, _, _, _) => ValidInstanceDump(idSize, b)
    case ObjectArrayDump(_, _, _, _) => ValidObjectArrayDump(idSize, b)
    case PrimitiveArrayDump(_, _, _, _) => ValidPrimitiveArrayDump(idSize, b)
  }

  /** The bytes a parse of b reads (for a primitive array, all but the skipped elements). */
  function EncodeBlock(idSize: nat, b: HeapBlock): seq<byte> {
    match b
    case RootBlock(_, id) => ToBE(id, IdWidth(idSize))
    case ClassDump(_, _, _, _, _, _, _, _, _, _, _, _) => EncodeClassDump(idSize, b)
    case InstanceDump(_, _, _, _) => EncodeInstanceDump(idSize, b)
    case ObjectArrayDump(_, _, _, _) => EncodeObjectArrayDump(idSize, b)
    case PrimitiveArrayDump(_, _, _, _) => EncodePrimitiveArrayDump(idSize, b)
  }

  /** The bytes a parse of b seeks over. */
  function SkipOf(idSize: nat, b: HeapBlock): nat {
    if b.PrimitiveArrayDump? then ElementBytes(idSize, b) else 0
  }

  /** b is laid out from c to c2: its bytes are read, then its skip stays within the bound. */
  predicate Laid(e: Env, c: Cursor, b: HeapBlock, c2: Cursor) {
    var c1 := Advance(e, c, |EncodeBlock(e.idSize, b)|);
    Consumed(e, c, c1, EncodeBlock(e.idSize, b)) && Skipped(e, c1, c2, SkipOf(e.idSize, b))
  }

  /** The roots that fail, fail whatever the file holds. */
  predicate Raising(cls: HeapBlockClass) {
    cls.RootJniGlobal? || cls.RootNativeStack? || cls.RootThreadBlock? || cls.RootJniLocal?
    || cls.RootJavaFrame? || cls.RootThreadObject?
  }

  lemma RaisingParse(e: Env, c: Cursor, cls: HeapBlockClass)
    requires Raising(cls)
    ensures ParseSpec(e, c, cls).result.Failure?
    ensures cls == RootJniGlobal ==> ParseSpec(e, c, cls) == Outcome(Failure(AttributeError), c)
  {
  }

  lemma RootParseExact(e: Env, c: Cursor, cls: HeapBlockClass, b: HeapBlock, c2: Cursor)
    requires cls == RootUnkown || cls == RootStickyClass || cls == RootMonitorUsed
    ensures ParseSpec(e, c, cls) == Outcome(Success(b), c2)
        <==> ClassOf(b) == cls && ValidBlock(e.idSize, b) && Laid(e, c, b, c2)
  {
    assert ParseSpec(e, c, cls) == RootIdSpec(e, c, cls);
    if b.RootBlock? {
      IdExact(e, c, b.id, c2);
      RootLaid(e, c, b, c2);
    } else {
      assert ClassOf(b) != cls;
    }
  }

  /** A root block is laid out exactly where its id is consumed. */
  lemma RootLaid(e: Env, c: Cursor, b: HeapBlock, c2: Cursor)
    requires b.RootBlock?
    ensures ValidBlock(e.idSize, b)
        <==> (b.cls == RootUnkown || b.cls == RootStickyClass || b.cls == RootMonitorUsed) && b.id < Pow256(IdWidth(e.idSize))
    ensures Laid(e, c, b, c2) <==> Consumed(e, c, c2, ToBE(b.id, IdWidth(e.idSize)))
  {
  }

  /** A block read whole (no skipped part) is laid out exactly where it is consumed. */
  lemma LaidWhole(e: Env, c: Cursor, b: HeapBlock, c2: Cursor)
    requires !b.PrimitiveArrayDump?
    ensures Laid(e, c, b, c2) <==> Consumed(e, c, c2, EncodeBlock(e.idSize, b))
  {
  }

  /** Every parse succeeds with b exactly when b is a block of that class laid out at c. */
  lemma ParseExact(e: Env, c: Cursor, cls: HeapBlockClass, b: HeapBlock, c2: Cursor)
    ensures ParseSpec(e, c, cls) == Outcome(Success(b), c2)
        <==> ClassOf(b) == cls && ValidBlock(e.idSize, b) && Laid(e, c, b, c2)
  {
    if Raising(cls) {
      RaisingParse(e, c, cls);
    } else if cls == RootUnkown || cls == RootStickyClass || cls == RootMonitorUsed {
      RootParseExact(e, c, cls, b, c2);
    } else if cls == ClassDumpClass {
      ClassDumpExact(e, c, b, c2);
      if b.ClassDump? {
        LaidWhole(e, c, b, c2);
      }
    } else if cls == InstanceDumpClass {
      InstanceDumpExact(e, c, b, c2);
      if b.InstanceDump? {
        LaidWhole(e, c, b, c2);
      }
    } else if cls == ObjectArrayDumpClass {
      ObjectArrayDumpExact(e, c, b, c2);
      if b.ObjectArrayDump? {
        LaidWhole(e, c, b, c2);
      }
    } else {
      PrimitiveArrayDumpExact(e, c, b, c2);
    }
  }

  // ---------------------------------------------------------------------------------------
  // HeapDumpParser.read_next_block and __iter__

  /** `self.position == self.length`: only a parser with a length can be at its end. */
  predicate AtBound(e: Env, c: Cursor) {
    e.length.Some? && c.position == e.length.value
  }

  /** HeapDumpParser.read_next_block: None at the bound, else a tag byte; None when the tag is
      no sub-record, otherwise the parse of its class (SubTagClassTable shows this is the
      source's two lookups, whose HEAP_DUMP_END test and KeyError are never reached). */
  function SubRecordSpec(e: Env, c: Cursor): (o: Outcome<Option<HeapBlock>>)
    ensures o.after.pos >= c.pos && o.after.position >= c.position
    ensures o.result.Success? && o.result.value.Some? ==> c.pos < |e.data| && o.after.pos > c.pos
  {
    if AtBound(e, c) then Outcome(Success(None), c)
    else
      var tag :- UIntSpec(e, c, 1);
      match SubTagClass(tag.0)
      case None => Outcome(Success(None), tag.1)
      case Some(cls) =>
        var b :- ParseSpec(e, tag.1, cls);
        Outcome(Success(Some(b.0)), b.1)
  }

  /** A sub-record laid out at c: not at the bound, its tag byte, then the block. */
  predicate RecordLaid(e: Env, c: Cursor, b: HeapBlock, c2: Cursor) {
    && !AtBound(e, c)
    && Consumed(e, c, Advance(e, c, 1), [SubTagOf(ClassOf(b)) as byte])
    && Laid(e, Advance(e, c, 1), b, c2)
  }

  /** read_next_block returns b exactly when b is laid out at c behind its tag. */
  lemma SubRecordExact(e: Env, c: Cursor, b: HeapBlock, c2: Cursor)
    ensures SubRecordSpec(e, c) == Outcome(Success(Some(b)), c2)
        <==> ValidBlock(e.idSize, b) && RecordLaid(e, c, b, c2)
  {
    var c1 := Advance(e, c, 1);
    var code := SubTagOf(ClassOf(b));
    ToBEByte(code);
    UIntExact(e, c, 1, code, c1);
    ParseExact(e, c1, ClassOf(b), b, c2);
    var t := UIntSpec(e, c, 1);
    SubTagsRoundTrip(ClassOf(b), code);
    if !AtBound(e, c) && t.result.Success? && SubTagClass(t.result.value).Some? {
      var cls := SubTagClass(t.result.value).value;
      SubTagsRoundTrip(ClassOf(b), t.result.value);
      ParseExact(e, c1, cls, b, c2);
    }
  }

  /** read_next_block returns None exactly at the bound or after a byte that is no sub-tag. */
  lemma SubRecordEnds(e: Env, c: Cursor)
    ensures SubRecordSpec(e, c).result == Success(None)
        <==> AtBound(e, c) || (UIntSpec(e, c, 1).result.Success? && UIntSpec(e, c, 1).result.value !in HeapDumpSubTags)
  {
    var t := UIntSpec(e, c, 1);
    if t.result.Success? {
      SubTagClassTable(t.result.value);
    }
  }

  /** What iterating a HeapDumpParser yields: the blocks up to the first None, and the exception
      that ended it, if any. EOFError ends the iteration silently; every other exception
      propagates to the consumer. */
  datatype Walk = Walk(blocks: seq<HeapBlock>, raised: Option<Error>, after: Cursor)

  /** The bytes still ahead of the cursor. */
  function Remaining(e: Env, c: Cursor): nat {
    if c.pos < |e.data| then |e.data| - c.pos else 0
  }

  /** BaseParser.__iter__ over a HeapDumpParser. */
  function WalkSpec(e: Env, c: Cursor): (w: Walk)
    decreases Remaining(e, c)
  {
    var o := SubRecordSpec(e, c);
    if o.result.Failure? then Walk([], if o.result.error == EOFError then None else Some(o.result.error), o.after)
    else if o.result.value.None? then Walk([], None, o.after)
    else
      var rest := WalkSpec(e, o.after);
      Walk([o.result.value.value] + rest.blocks, rest.raised, rest.after)
  }

  /** The cursor after a sub-record laid out for b at c. */
  function RecordEnd(e: Env, c: Cursor, b: HeapBlock): Cursor {
    Advance(e, Advance(e, Advance(e, c, 1), |EncodeBlock(e.idSize, b)|), SkipOf(e.idSize, b))
  }

  /** The blocks bs laid out one after another from c, ending at c2. */
  predicate LaidAll(e: Env, c: Cursor, bs: seq<HeapBlock>, c2: Cursor)
    decreases |bs|
  {
    if bs == [] then c2 == c
    else
      && ValidBlock(e.idSize, bs[0]) && RecordLaid(e, c, bs[0], RecordEnd(e, c, bs[0]))
      && LaidAll(e, RecordEnd(e, c, bs[0]), bs[1..], c2)
  }

  /** bs in front of the blocks a walk yields. */
  function PrependWalk(bs: seq<HeapBlock>, w: Walk): Walk {
    Walk(bs + w.blocks, w.raised, w.after)
  }

  lemma PrependWalkTwice(xs: seq<HeapBlock>, ys: seq<HeapBlock>, w: Walk)
    ensures PrependWalk(xs, PrependWalk(ys, w)) == PrependWalk(xs + ys, w)
  {
    assert xs + (ys + w.blocks) == xs + ys + w.blocks;
  }

  /** A block read moves onto the front of what the rest of the iteration yields. */
  lemma WalkStep(e: Env, c: Cursor, b: HeapBlock, c1: Cursor)
    requires SubRecordSpec(e, c) == Outcome(Success(Some(b)), c1)
    ensures WalkSpec(e, c) == PrependWalk([b], WalkSpec(e, c1))
  {
  }

  /** A read_next_block that raises or returns None ends the walk: EOFError silently, any other
      exception as what was raised. */
  lemma WalkStops(e: Env, c: Cursor)
    requires SubRecordSpec(e, c).result.Failure? || SubRecordSpec(e, c).result.value.None?
    ensures var o := SubRecordSpec(e, c);
      WalkSpec(e, c) == Walk([], if o.result.Failure? && o.result.error != EOFError then Some(o.result.error) else None, o.after)
  {
  }

  /** The first of several laid-out blocks is what read_next_block returns. */
  lemma LaidFirst(e: Env, c: Cursor, bs: seq<HeapBlock>, c2: Cursor)
    requires bs != [] && LaidAll(e, c, bs, c2)
    ensures SubRecordSpec(e, c) == Outcome(Success(Some(bs[0])), RecordEnd(e, c, bs[0]))
    ensures LaidAll(e, RecordEnd(e, c, bs[0]), bs[1..], c2)
  {
    SubRecordExact(e, c, bs[0], RecordEnd(e, c, bs[0]));
  }

  /** bs are what read_next_block returns, one call after another, from c on to c2. */
  predicate ReadsAll(e: Env, c: Cursor, bs: seq<HeapBlock>, c2: Cursor)
    decreases |bs|
  {
    if bs == [] then c2 == c
    else
      var o := SubRecordSpec(e, c);
      o.result == Success(Some(bs[0])) && ReadsAll(e, o.after, bs[1..], c2)
  }

  /** Blocks laid out one after another are read one after another. */
  lemma {:induction false} LaidReads(e: Env, c: Cursor, bs: seq<HeapBlock>, c2: Cursor)
    requires LaidAll(e, c, bs, c2)
    ensures ReadsAll(e, c, bs, c2)
    decreases |bs|
  {
    if bs != [] {
      LaidFirst(e, c, bs, c2);
      LaidReads(e, RecordEnd(e, c, bs[0]), bs[1..], c2);
    }
  }

  /** Iterating over blocks read one after another yields exactly those blocks, then whatever
      the iteration finds behind them. */
  lemma {:induction false} WalkReads(e: Env, c: Cursor, bs: seq<HeapBlock>, c2: Cursor)
    requires ReadsAll(e, c, bs, c2)
    ensures WalkSpec(e, c) == PrependWalk(bs, WalkSpec(e, c2))
    decreases |bs|
  {
    if bs == [] {
      assert bs + WalkSpec(e, c2).blocks == WalkSpec(e, c2).blocks;
    } else {
      var c1 := SubRecordSpec(e, c).after;
      WalkStep(e, c, bs[0], c1);
      WalkReads(e, c1, bs[1..], c2);
      PrependWalkTwice([bs[0]], bs[1..], WalkSpec(e, c2));
      assert [bs[0]] + bs[1..] == bs;
    }
  }

  /** One more block read extends the run of reads. */
  lemma {:induction false} ReadsSnoc(e: Env, c: Cursor, bs: seq<HeapBlock>, c1: Cursor, b: HeapBlock, c2: Cursor)
    requires ReadsAll(e, c, bs, c1)
    requires SubRecordSpec(e, c1) == Outcome(Success(Some(b)), c2)
    ensures ReadsAll(e, c, bs + [b], c2)
    decreases |bs|
  {
    if bs != [] {
      ReadsSnoc(e, SubRecordSpec(e, c).after, bs[1..], c1, b, c2);
      assert (bs + [b])[1..] == bs[1..] + [b];
    }
  }

  /** A run of reads ended by a read_next_block that raises or returns None is the whole walk:
      EOFError ends it silently, any other exception is what it raised. */
  lemma ReadsEnd(e: Env, c: Cursor, bs: seq<HeapBlock>, c1: Cursor)
    requires ReadsAll(e, c, bs, c1)
    requires SubRecordSpec(e, c1).result.Failure? || SubRecordSpec(e, c1).result.value.None?
    ensures var o := SubRecordSpec(e, c1);
      WalkSpec(e, c) == Walk(bs, if o.result.Failure? && o.result.error != EOFError then Some(o.result.error) else None, o.after)
  {
    WalkReads(e, c, bs, c1);
    WalkStops(e, c1);
    assert bs + [] == bs;
  }

  /** Iterating over blocks laid out one after another yields exactly those blocks, then whatever
      the iteration finds behind them. */
  lemma WalkLaid(e: Env, c: Cursor, bs: seq<HeapBlock>, c2: Cursor)
    requires LaidAll(e, c, bs, c2)
    ensures WalkSpec(e, c) == PrependWalk(bs, WalkSpec(e, c2))
  {
    LaidReads(e, c, bs, c2);
    WalkReads(e, c, bs, c2);
  }

  /** So a heap dump of well-formed blocks followed by its bound, or by a byte that is no
      sub-tag, iterates to exactly its blocks with nothing raised. */
  lemma WalkDump(e: Env, c: Cursor, bs: seq<HeapBlock>, c2: Cursor)
    requires LaidAll(e, c, bs, c2)
    requires AtBound(e, c2) || (UIntSpec(e, c2, 1).result.Success? && UIntSpec(e, c2, 1).result.value !in HeapDumpSubTags)
    ensures WalkSpec(e, c).blocks == bs && WalkSpec(e, c).raised.None?
  {
    WalkLaid(e, c, bs, c2);
    SubRecordEnds(e, c2);
    assert bs + [] == bs;
  }

  // ---------------------------------------------------------------------------------------
  // The parse classmethods, run on a parser

  /** ClassDump.read_constant. */
  method ReadConstant(p: Parser) returns (r: Result<Entry>)
    modifies p.f`pos, p`position
    ensures Outcome(r, p.At()) == EntrySpec(old(p.Sees()), old(p.At()), ConstantKind)
  {
    var index := p.I2();
    if index.Failure? {
      return Failure(index.error);
    }
    var tp := p.ReadValueType();
    if tp.Failure? {
      return Failure(tp.error);
    }
    var value := p.ReadValue(tp.value);
    if value.Failure? {
      return Failure(value.error);
    }
    r := Success(PoolConstant(index.value, tp.value, value.value));
  }

  /** ClassDump.read_static_field. */
  method ReadStaticField(p: Parser) returns (r: Result<Entry>)
    modifies p.f`pos, p`position
    ensures Outcome(r, p.At()) == EntrySpec(old(p.Sees()), old(p.At()), StaticKind)
  {
    var name := p.ReadId();
    if name.Failure? {
      return Failure(name.error);
    }
    var tp := p.ReadValueType();
    if tp.Failure? {
      return Failure(tp.error);
    }
    var value := p.ReadValue(tp.value);
    if value.Failure? {
      return Failure(value.error);
    }
    r := Success(StaticField(name.value, tp.value, value.value));
  }

  /** ClassDump.read_instance_field. */
  method ReadInstanceField(p: Parser) returns (r: Result<Entry>)
    modifies p.f`pos, p`position
    ensures Outcome(r, p.At()) == EntrySpec(old(p.Sees()), old(p.At()), InstanceKind)
  {
    var name := p.ReadId();
    if name.Failure? {
      return Failure(name.error);
    }
    var tp := p.ReadValueType();
    if tp.Failure? {
      return Failure(tp.error);
    }
    r := Success(InstanceField(name.value, tp.value));
  }

  /** The reader of entries of kind k: read_constant, read_static_field or read_instance_field. */
  method ReadEntry(p: Parser, k: EntryKind) returns (r: Result<Entry>)
    modifies p.f`pos, p`position
    ensures Outcome(r, p.At()) == EntrySpec(old(p.Sees()), old(p.At()), k)
  {
    match k {
      case ConstantKind => r := ReadConstant(p);
      case StaticKind => r := ReadStaticField(p);
      case InstanceKind => r := ReadInstanceField(p);
    }
  }

  /** The body of one of ClassDump.parse's comprehensions, `[read(p) for _ in xrange(n)]`. */
  method ReadEntries(p: Parser, k: EntryKind, n: nat) returns (r: Result<seq<Entry>>)
    modifies p.f`pos, p`position
    ensures Outcome(r, p.At()) == EntriesSpec(old(p.Sees()), old(p.At()), k, n)
  {
    var e := p.Sees();
    ghost var c0 := p.At();
    var xs: seq<Entry> := [];
    var left := n;
    while left > 0
      invariant p.Sees() == e
      invariant |xs| + left == n && ValidEntries(e.idSize, k, xs)
      invariant xs == [] ==> p.At() == c0
      invariant xs != [] ==> Consumed(e, c0, p.At(), EncodeEntries(e.idSize, xs))
    {
      ghost var c := p.At();
      var x := ReadEntry(p, k);
      if x.Failure? {
        EntriesRaise(e, c0, k, xs, c, n, x.error, p.At());
        return Failure(x.error);
      }
      EntriesSnoc(e, c0, k, xs, c, x.value, p.At());
      xs := xs + [x.value];
      left := left - 1;
    }
    EntriesParse(e, c0, k, xs, p.At());
    r := Success(xs);
  }

  /** A whole comprehension with its count: `[read(p) for _ in xrange(p.i2())]`. */
  method ReadList(p: Parser, k: EntryKind) returns (r: Result<seq<Entry>>)
    modifies p.f`pos, p`position
    ensures Outcome(r, p.At()) == ListSpec(old(p.Sees()), old(p.At()), k)
  {
    var n := p.I2();
    if n.Failure? {
      return Failure(n.error);
    }
    r := ReadEntries(p, k, n.value);
  }

  /** ClassDump.parse. */
  method ParseClassDump(p: Parser) returns (r: Result<HeapBlock>)
    modifies p.f`pos, p`position
    ensures Outcome(r, p.At()) == ClassDumpSpec(old(p.Sees()), old(p.At()))
  {
    var head := p.ReadUInts(HeadWidths(p.idSize));
    if head.Failure? {
      return Failure(head.error);
    }
    var constants := ReadList(p, ConstantKind);
    if constants.Failure? {
      return Failure(constants.error);
    }
    var statics := ReadList(p, StaticKind);
    if statics.Failure? {
      return Failure(statics.error);
    }
    var fields := ReadList(p, InstanceKind);
    if fields.Failure? {
      return Failure(fields.error);
    }
    r := Success(ClassDumpOf(HeadOfFields(head.value), constants.value, statics.value, fields.value));
  }

  /** InstanceDump.parse. */
  method ParseInstanceDump(p: Parser) returns (r: Result<HeapBlock>)
    modifies p.f`pos, p`position
    ensures Outcome(r, p.At()) == InstanceDumpSpec(old(p.Sees()), old(p.At()))
  {
    var ns := p.ReadUInts(InstanceWidths(p.idSize));
    if ns.Failure? {
      return Failure(ns.error);
    }
    var bytes := p.Read(ns.value[3]);
    if bytes.Failure? {
      return Failure(bytes.error);
    }
    r := Success(InstanceDump(ns.value[0], ns.value[1], ns.value[2], bytes.value));
  }

  /** ObjectArrayDump.parse, with its comprehension `[p.read_id() for _ in xrange(n)]`. */
  method ParseObjectArrayDump(p: Parser) returns (r: Result<HeapBlock>)
    modifies p.f`pos, p`position
    ensures Outcome(r, p.At()) == ObjectArrayDumpSpec(old(p.Sees()), old(p.At()))
  {
    var e := p.Sees();
    var ns := p.ReadUInts(ObjectArrayWidths(p.idSize));
    if ns.Failure? {
      return Failure(ns.error);
    }
    var n := ns.value[2];
    ghost var c0 := p.At();
    var elements: seq<nat> := [];
    var i := 0;
    PrependNothing(IdsSpec(e, c0, n));
    while i < n
      invariant 0 <= i <= n
      invariant p.Sees() == e
      invariant IdsSpec(e, c0, n) == Prepend(elements, IdsSpec(e, p.At(), n - i))
    {
      label Step:
      var x := p.ReadId();
      RepeatUnfold(IdReader(e), old@Step(p.At()), n - i, elements);
      if x.Failure? {
        return Failure(x.error);
      }
      elements := elements + [x.value];
      i := i + 1;
    }
    assert elements + [] == elements;
    r := Success(ObjectArrayDump(ns.value[0], ns.value[1], ns.value[3], elements));
  }

  /** PrimitiveArrayDump.parse: the elements are skipped, not read. */
  method ParsePrimitiveArrayDump(p: Parser) returns (r: Result<HeapBlock>)
    modifies p.f`pos, p`position
    ensures Outcome(r, p.At()) == PrimitiveArrayDumpSpec(old(p.Sees()), old(p.At()))
  {
    var ns := p.ReadUInts(PrimitiveArrayWidths(p.idSize));
    if ns.Failure? {
      return Failure(ns.error);
    }
    var tp := p.ReadValueType();
    if tp.Failure? {
      return Failure(tp.error);
    }
    var skip := p.Seek(SkipBytes(p.idSize, tp.value, ns.value[2]));
    if skip.Failure? {
      return Failure(skip.error);
    }
    r := Success(PrimitiveArrayDump(ns.value[0], ns.value[1], tp.value, ns.value[2]));
  }

  /** `HEAP_BLOCK_CLASSES_BY_TAG[name].parse(p)` for the class cls. */
  method Parse(p: Parser, cls: HeapBlockClass) returns (r: Result<HeapBlock>)
    modifies p.f`pos, p`position
    ensures Outcome(r, p.At()) == ParseSpec(old(p.Sees()), old(p.At()), cls)
  {
    match cls {
      case RootUnkown => r := ParseRootId(p, cls);
      case RootStickyClass => r := ParseRootId(p, cls);
      case RootMonitorUsed => r := ParseRootId(p, cls);
      case RootJniGlobal => r := Failure(AttributeError);
      case RootNativeStack => r := ParseThreadRoot(p);
      case RootThreadBlock => r := ParseThreadRoot(p);
      case RootJniLocal => r := ParseThreadFrameRoot(p);
      case RootJavaFrame => r := ParseThreadFrameRoot(p);
      case RootThreadObject => r := ParseThreadFrameRoot(p);
      case ClassDumpClass => r := ParseClassDump(p);
      case InstanceDumpClass => r := ParseInstanceDump(p);
      case ObjectArrayDumpClass => r := ParseObjectArrayDump(p);
      case PrimitiveArrayDumpClass => r := ParsePrimitiveArrayDump(p);
    }
  }

  /** BaseOnlyIdHeapDumpBlock.parse. */
  method ParseRootId(p: Parser, cls: HeapBlockClass) returns (r: Result<HeapBlock>)
    modifies p.f`pos, p`position
    ensures Outcome(r, p.At()) == RootIdSpec(old(p.Sees()), old(p.At()), cls)
  {
    var id := p.ReadId();
    if id.Failure? {
      return Failure(id.error);
    }
    r := Success(RootBlock(cls, id.value));
  }

  /** BaseThreadHeapDumpBlock.parse: both fields are read before the constructor raises. */
  method ParseThreadRoot(p: Parser) returns (r: Result<HeapBlock>)
    modifies p.f`pos, p`position
    ensures Outcome(r, p.At()) == ThreadRootSpec(old(p.Sees()), old(p.At()))
  {
    var id := p.ReadId();
    if id.Failure? {
      return Failure(id.error);
    }
    var serial := p.I4();
    if serial.Failure? {
      return Failure(serial.error);
    }
    r := Failure(TypeError);
  }

  /** BaseThreadFrameHeadDumpBlock.parse and RootThreadObject.parse: all three fields are read
      before the constructor raises. */
  method ParseThreadFrameRoot(p: Parser) returns (r: Result<HeapBlock>)
    modifies p.f`pos, p`position
    ensures Outcome(r, p.At()) == ThreadFrameRootSpec(old(p.Sees()), old(p.At()))
  {
    var id := p.ReadId();
    if id.Failure? {
      return Failure(id.error);
    }
    var serial := p.I4();
    if serial.Failure? {
      return Failure(serial.error);
    }
    var frame := p.I4();
    if frame.Failure? {
      return Failure(frame.error);
    }
    r := Failure(TypeError);
  }

  /** HeapDumpParser.read_next_block. */
  method ReadNextSubRecord(p: Parser) returns (r: Result<Option<HeapBlock>>)
    modifies p.f`pos, p`position
    ensures Outcome(r, p.At()) == SubRecordSpec(old(p.Sees()), old(p.At()))
  {
    if p.length.Some? && p.position == p.length.value {
      return Success(None);
    }
    var tag := p.I1();
    if tag.Failure? {
      return Failure(tag.error);
    }
    if tag.value !in HeapDumpSubTags {
      return Success(None);
    }
    SubTagClassTable(tag.value);
    var name := HeapDumpSubTags[tag.value];
    if name == "HEAP_DUMP_END" {
      return Success(None);
    }
    if name !in HeapBlockClasses {
      return Failure(KeyError);
    }
    var b := Parse(p, HeapBlockClasses[name]);
    if b.Failure? {
      return Failure(b.error);
    }
    r := Success(Some(b.value));
  }

  /** `list(p)` for a HeapDumpParser p: read_next_block until None, with EOFError ending the
      iteration and any other exception leaving it. */
  method Iterate(p: Parser) returns (blocks: seq<HeapBlock>, raised: Option<Error>)
    modifies p.f`pos, p`position
    ensures Walk(blocks, raised, p.At()) == WalkSpec(old(p.Sees()), old(p.At()))
  {
    var e := p.Sees();
    ghost var c0 := p.At();
    blocks := [];
    while true
      invariant p.Sees() == e
      invariant ReadsAll(e, c0, blocks, p.At())
      decreases Remaining(e, p.At())
    {
      ghost var c := p.At();
      var b := ReadNextSubRecord(p);
      if b.Failure? || b.value.None? {
        ReadsEnd(e, c0, blocks, c);
        raised := if b.Failure? && b.error != EOFError then Some(b.error) else None;
        return;
      }
      ReadsSnoc(e, c0, blocks, c, b.value.value, p.At());
      blocks := blocks + [b.value.value];
    }
  }

}
