/** ReferenceBuilder of references.py: two passes over an hprof file that fill the tables of
    strings, class names, classes and references, and then link and resolve what they hold. */
module ReferenceBuilding {
  import opened Wrappers
  import opened BigEndian
  import opened Decoding
  import opened HeapBlocks
  import opened References
  import Constants
  import Blocks
  import Parsers

  /** The four dicts of a ReferenceBuilder. */
  datatype Tables = Tables(
    strings: map<nat, Text>,
    classNameIds: map<nat, nat>,
    classes: map<nat, JavaClass>,
    references: map<nat, Reference>)

  // ---------------------------------------------------------------------------------------
  // Pass 1: read_hprof

  /** What read_hprof leaves: the start of the HEAP_DUMP record it returns, or the exception it
      raised; the two tables it filled; and the file cursor. */
  datatype Pass1 = Pass1(heapDump: Result<nat>, strings: map<nat, Text>, classNameIds: map<nat, nat>, after: Cursor)

  /** A record header that reads moves the cursor forward from a byte of the file. */
  lemma HeaderAdvances(e: Env, c: Cursor)
    requires !e.counting && Blocks.RecordHeaderSpec(e, c).result.Success?
    ensures c.pos < |e.data| && Blocks.RecordHeaderSpec(e, c).after.pos > c.pos
  {
    Blocks.RecordHeaderRead(e, c, Blocks.RecordHeaderSpec(e, c).result.value);
  }

  /** The effect of a record's payload on pass 1: the tables and cursor it leaves, or the
      exception its payload read raised and the cursor left behind. */
  datatype Visit = Visited(strings: map<nat, Text>, classNameIds: map<nat, nat>, after: Cursor) | Raised(error: Error, after: Cursor)

  /** A record other than HEAP_DUMP, its header h read and the cursor at `at`: a STRING stores its
      contents under its id, a LOAD_CLASS its class name id under its class id, any other record
      is passed over. A payload read that succeeds leaves the file cursor where it found it. */
  function VisitSpec(e: Env, h: Blocks.RecordHeader, at: Cursor, strings: map<nat, Text>, names: map<nat, nat>): (v: Visit)
    ensures v.Visited? ==> v.after.pos == at.pos
    ensures v.Visited? ==> strings.Keys <= v.strings.Keys && names.Keys <= v.classNameIds.Keys
    ensures v.Visited? && !e.counting ==> v.after == at
  {
    var name := Constants.TagName(h.tag);
    if name == "STRING" then
      var s := Blocks.StringPayload(e, Cursor(h.start, at.position), h.length);
      if s.result.Failure? then Raised(s.result.error, s.after)
      else Visited(strings[s.result.value.0 := s.result.value.1], names, Cursor(at.pos, s.after.position))
    else if name == "LOAD_CLASS" then
      var l := Blocks.LoadClassPayload(e, Cursor(h.start, at.position));
      if l.result.Failure? then Raised(l.result.error, l.after)
      else Visited(strings, names[l.result.value.classId := l.result.value.classNameId], Cursor(at.pos, l.after.position))
    else Visited(strings, names, at)
  }

  /** read_hprof's loop from cursor c: records are read one after another until the first
      HEAP_DUMP, each other record visited. EOFError from a record header ends the loop and
      `assert 0` raises; an exception from a payload leaves read_hprof. */
  function HprofSpec(e: Env, c: Cursor, strings: map<nat, Text>, names: map<nat, nat>): Pass1
    requires !e.counting
    decreases Remaining(e, c)
  {
    var o := Blocks.RecordHeaderSpec(e, c);
    if o.result.Failure? then
      Pass1(Failure(if o.result.error == EOFError then AssertionError else o.result.error), strings, names, o.after)
    else if Constants.TagName(o.result.value.tag) == "HEAP_DUMP" then
      Pass1(Success(o.result.value.start), strings, names, o.after)
    else
      HeaderAdvances(e, c);
      match VisitSpec(e, o.result.value, o.after, strings, names)
      case Raised(err, after) => Pass1(Failure(err), strings, names, after)
      case Visited(strings', names', after) => HprofSpec(e, after, strings', names')
  }

  /** read_hprof on a file at pos: HProfParser(f) reads the header, then the loop. */
  function ReadHprofSpec(data: seq<byte>, pos: nat, strings: map<nat, Text>, names: map<nat, nat>): Pass1 {
    var h := HeaderSpec(Env(data, false, None, 0), Cursor(pos, 0));
    if h.result.Failure? then Pass1(Failure(h.result.error), strings, names, h.after)
    else HprofSpec(Env(data, false, None, h.result.value.idSize), h.after, strings, names)
  }

  // ---------------------------------------------------------------------------------------
  // Pass 2: read_references

  /** One element of the heap dump entered into the tables. A CLASS_DUMP becomes a JavaClass
      named through class_name_ids and strings; an INSTANCE_DUMP is built against the class of
      its class id; the two array dumps become array references; root blocks change nothing.
      A missing key raises KeyError and leaves the tables as they were. */
  function Apply(overhead: nat, t: Tables, b: HeapBlock): Result<Tables> {
    match b
    case ClassDump(id, _, superClassId, _, _, _, _, _, _, _, _, instanceFields) =>
      if id !in t.classNameIds || t.classNameIds[id] !in t.strings then Failure(KeyError)
      else
        var cls := JavaClass(t.strings[t.classNameIds[id]], superClassId, instanceFields, Unlinked);
        Success(t.(classes := t.classes[id := cls]))
    case InstanceDump(id, _, classObjectId, _) =>
      if classObjectId !in t.classes then Failure(KeyError)
      else
        var r :- InstanceFrom(t.strings, t.classes[classObjectId], b);
        Success(t.(references := t.references[id := r]))
    case ObjectArrayDump(id, _, _, elements) =>
      Success(t.(references := t.references[id := ObjectArrayOf(overhead, elements)]))
    case PrimitiveArrayDump(id, _, elementType, size) =>
      var r := PrimitiveArrayOf(overhead, elementType, TypeSize(IdSize, elementType), size);
      Success(t.(references := t.references[id := r]))
    case RootBlock(_, _) => Success(t)
  }

  /** What read_references leaves: the exception that left it, if any, the tables and the file
      cursor. */
  datatype Pass2 = Pass2(raised: Option<Error>, tables: Tables, after: Cursor)

  /** read_references' loop from cursor c: each element is entered as soon as it is read, so an
      element that cannot be entered stops the pass before anything after it is read. */
  function RefsSpec(e: Env, c: Cursor, overhead: nat, t: Tables): Pass2
    decreases Remaining(e, c)
  {
    var o := SubRecordSpec(e, c);
    if o.result.Failure? then Pass2(if o.result.error == EOFError then None else Some(o.result.error), t, o.after)
    else if o.result.value.None? then Pass2(None, t, o.after)
    else match Apply(overhead, t, o.result.value.value)
      case Failure(err) => Pass2(Some(err), t, o.after)
      case Success(t') => RefsSpec(e, o.after, overhead, t')
  }

  /** The parser read_references iterates: a HeapDumpParser with ID_SIZE and no length. */
  function HeapEnv(data: seq<byte>): Env {
    Env(data, true, None, IdSize)
  }

  /** The elements bs entered one after another, up to the first that cannot be. */
  function ApplyAll(overhead: nat, t: Tables, bs: seq<HeapBlock>): (Option<Error>, Tables)
    decreases |bs|
  {
    if bs == [] then (None, t)
    else match Apply(overhead, t, bs[0])
      case Failure(err) => (Some(err), t)
      case Success(t') => ApplyAll(overhead, t', bs[1..])
  }

  /** Entering elements as they are read is entering, in order, all the elements the iteration
      yields: the first element that cannot be entered decides the exception, and only when
      every element is entered does the exception that ended the iteration, if any, surface. */
  lemma {:induction false} RefsWalk(e: Env, c: Cursor, overhead: nat, t: Tables)
    ensures var w := WalkSpec(e, c);
      var a := ApplyAll(overhead, t, w.blocks);
      && RefsSpec(e, c, overhead, t).tables == a.1
      && RefsSpec(e, c, overhead, t).raised == (if a.0.Some? then a.0 else w.raised)
    decreases Remaining(e, c)
  {
    var o := SubRecordSpec(e, c);
    if o.result.Success? && o.result.value.Some? {
      var b := o.result.value.value;
      WalkStep(e, c, b, o.after);
      var rest := WalkSpec(e, o.after).blocks;
      assert WalkSpec(e, c).blocks == [b] + rest;
      assert ([b] + rest)[1..] == rest;
      if Apply(overhead, t, b).Success? {
        RefsWalk(e, o.after, overhead, Apply(overhead, t, b).value);
      }
    }
  }

  /** The ids of the elements that become references. */
  function ReferenceIds(bs: seq<HeapBlock>): set<nat>
    decreases |bs|
  {
    if bs == [] then {}
    else
      var own := if bs[0].InstanceDump? || bs[0].ObjectArrayDump? || bs[0].PrimitiveArrayDump? then {bs[0].id} else {};
      own + ReferenceIds(bs[1..])
  }

  /** The ids of the CLASS_DUMP elements. */
  function ClassIds(bs: seq<HeapBlock>): set<nat>
    decreases |bs|
  {
    if bs == [] then {} else (if bs[0].ClassDump? then {bs[0].id} else {}) + ClassIds(bs[1..])
  }

  /** A primitive array is entered with no children and a base size of ARRAY_OVERHEAD plus, per
      element, the TYPE_SIZES width of its element type (the id size for OBJECT). */
  lemma ApplyPrimitiveArraySize(overhead: nat, t: Tables, b: HeapBlock)
    requires b.PrimitiveArrayDump?
    ensures Apply(overhead, t, b).Success?
    ensures var r := Apply(overhead, t, b).value.references[b.id];
      && r.PrimitiveArrayReference? && r.children == [] && r.numberOfElements == b.size
      && (b.elementType == Constants.Object ==> r.baseSize == overhead + IdSize * b.size)
      && (b.elementType != Constants.Object ==>
            r.baseSize == overhead + Constants.TypeSizes[Constants.TypeName(b.elementType)] * b.size)
  {
    TypeSizeTable(IdSize, b.elementType);
  }

  /** Entering one element keeps strings and class_name_ids, and adds its id to the class table
      or to the reference table, as its kind says. */
  lemma ApplyKeys(overhead: nat, t: Tables, b: HeapBlock)
    requires Apply(overhead, t, b).Success?
    ensures var t' := Apply(overhead, t, b).value;
      && t'.strings == t.strings && t'.classNameIds == t.classNameIds
      && t'.classes.Keys == t.classes.Keys + ClassIds([b])
      && t'.references.Keys == t.references.Keys + ReferenceIds([b])
  {
    assert [b][1..] == [];
  }

  /** Pass 2 never touches strings or class_name_ids; when every element is entered, the class
      table gains exactly the CLASS_DUMP ids and the reference table exactly the ids of the
      instance and array dumps. */
  lemma {:induction false} ApplyAllKeys(overhead: nat, t: Tables, bs: seq<HeapBlock>)
    ensures var a := ApplyAll(overhead, t, bs);
      && a.1.strings == t.strings && a.1.classNameIds == t.classNameIds
      && (a.0.None? ==>
            a.1.classes.Keys == t.classes.Keys + ClassIds(bs) && a.1.references.Keys == t.references.Keys + ReferenceIds(bs))
    decreases |bs|
  {
    if bs != [] && Apply(overhead, t, bs[0]).Success? {
      ApplyKeys(overhead, t, bs[0]);
      ApplyAllKeys(overhead, Apply(overhead, t, bs[0]).value, bs[1..]);
      assert [bs[0]][1..] == [];
    }
  }

  // ---------------------------------------------------------------------------------------
  // build: linking and resolving

  /** `c.parent_class = self.references.get(c.parent_class_id)`. */
  function LinkParent(refs: map<nat, Reference>, c: JavaClass): JavaClass {
    c.(parentClass := Linked(if c.parentClassId in refs then Some(c.parentClassId) else None))
  }

  function LinkParents(refs: map<nat, Reference>, classes: map<nat, JavaClass>): map<nat, JavaClass> {
    map k | k in classes :: LinkParent(refs, classes[k])
  }

  /** Every reference with its children resolved against the table. */
  function ResolveAll(refs: map<nat, Reference>): map<nat, Reference> {
    map k | k in refs :: refs[k].(children := Resolve(refs, refs[k].children))
  }

  /** What build leaves: the table it returns or the exception it raised, the tables and the
      file cursor. */
  datatype Built = Built(result: Result<map<nat, Reference>>, tables: Tables, pos: nat)

  function BuildSpec(data: seq<byte>, pos: nat, overhead: nat, t: Tables): Built {
    var p1 := ReadHprofSpec(data, pos, t.strings, t.classNameIds);
    var t1 := t.(strings := p1.strings, classNameIds := p1.classNameIds);
    if p1.heapDump.Failure? then Built(Failure(p1.heapDump.error), t1, p1.after.pos)
    else Finish(RefsSpec(HeapEnv(data), Cursor(p1.heapDump.value, 0), overhead, t1))
  }

  /** The end of build once pass 2 has left p2: an exception it raised, or the classes linked and
      the references resolved. */
  function Finish(p2: Pass2): Built {
    if p2.raised.Some? then Built(Failure(p2.raised.value), p2.tables, p2.after.pos)
    else
      var t2 := p2.tables;
      var t3 := t2.(classes := LinkParents(t2.references, t2.classes), references := ResolveAll(t2.references));
      Built(Success(t3.references), t3, p2.after.pos)
  }

  // ---------------------------------------------------------------------------------------
  // What the passes promise

  /** Record header h laid out at c: the tag, time and length in nine bytes, the payload right
      after them. The payload need not be all there: the header read seeks over it. */
  predicate HeaderLaid(e: Env, c: Cursor, h: Blocks.RecordHeader) {
    && h.tag < 256 && h.recordTime < Pow256(4) && h.length < Pow256(4) && h.start == c.pos + 9
    && Consumed(e, c, Advance(e, c, 9), [h.tag as byte] + ToBE(h.recordTime, 4) + ToBE(h.length, 4))
  }

  /** Where the record after h starts. */
  function NextRecord(c: Cursor, h: Blocks.RecordHeader): Cursor {
    Cursor(h.start + h.length, c.position)
  }

  /** The records hs laid out one after another from c, the next one due at c2. */
  predicate RecordsLaid(e: Env, c: Cursor, hs: seq<Blocks.RecordHeader>, c2: Cursor)
    decreases |hs|
  {
    if hs == [] then c2 == c
    else HeaderLaid(e, c, hs[0]) && RecordsLaid(e, NextRecord(c, hs[0]), hs[1..], c2)
  }

  /** No record of hs is a HEAP_DUMP. */
  predicate NoHeapDump(hs: seq<Blocks.RecordHeader>) {
    forall i :: 0 <= i < |hs| ==> hs[i].tag != 0x0C
  }

  /** The records hs visited in order from the tables strings and names: the tables they leave,
      or the exception of the first payload read that raises. */
  function VisitAll(e: Env, position: nat, hs: seq<Blocks.RecordHeader>, strings: map<nat, Text>, names: map<nat, nat>)
    : Result<(map<nat, Text>, map<nat, nat>)>
    decreases |hs|
  {
    if hs == [] then Success((strings, names))
    else match VisitSpec(e, hs[0], Cursor(hs[0].start + hs[0].length, position), strings, names)
      case Raised(err, _) => Failure(err)
      case Visited(strings', names', _) => VisitAll(e, position, hs[1..], strings', names')
  }

  /** hs are the records in front of the HEAP_DUMP record h due at c1, and visiting them turns
      strings and names into strings' and names'. */
  predicate FirstHeapDump(e: Env, c: Cursor, hs: seq<Blocks.RecordHeader>, c1: Cursor, h: Blocks.RecordHeader,
                          strings: map<nat, Text>, names: map<nat, nat>, strings': map<nat, Text>, names': map<nat, nat>)
  {
    && RecordsLaid(e, c, hs, c1) && NoHeapDump(hs)
    && VisitAll(e, c.position, hs, strings, names) == Success((strings', names'))
    && HeaderLaid(e, c1, h) && h.tag == 0x0C
  }

  /** A record laid out at c is what its header read returns, and the file cursor moves to the
      record after it. */
  lemma HeaderLaidRead(e: Env, c: Cursor, h: Blocks.RecordHeader)
    requires !e.counting && HeaderLaid(e, c, h)
    ensures Blocks.RecordHeaderSpec(e, c) == Outcome(Success(h), NextRecord(c, h))
  {
    Blocks.RecordHeaderExact(e, c, h);
  }

  /** Pass 1 over records laid out one after another, none of them a HEAP_DUMP: it goes on from
      the record after them with the tables visiting them leaves, or raises the exception of
      the first payload read that raises. */
  lemma {:induction false} HprofSkips(e: Env, c: Cursor, hs: seq<Blocks.RecordHeader>, c1: Cursor,
                                      strings: map<nat, Text>, names: map<nat, nat>)
    requires !e.counting && RecordsLaid(e, c, hs, c1) && NoHeapDump(hs)
    ensures var p := HprofSpec(e, c, strings, names);
      match VisitAll(e, c.position, hs, strings, names)
      case Success(t) => p == HprofSpec(e, c1, t.0, t.1)
      case Failure(err) => p.heapDump == Failure(err)
    decreases |hs|
  {
    if hs != [] {
      var h0 := hs[0];
      HeaderLaidRead(e, c, h0);
      assert h0.tag != 0x0C;
      HprofStep(e, c, h0, strings, names);
      var v := VisitSpec(e, h0, NextRecord(c, h0), strings, names);
      if v.Visited? {
        forall i | 0 <= i < |hs[1..]|
          ensures hs[1..][i].tag != 0x0C
        {
          assert hs[1..][i] == hs[i + 1];
        }
        HprofSkips(e, NextRecord(c, h0), hs[1..], c1, v.strings, v.classNameIds);
      }
    }
  }

  /** Records laid out in front of a HEAP_DUMP record, none of them a HEAP_DUMP and every
      payload readable, take pass 1 to that record, with the tables visiting them leaves and
      the file cursor past its payload. */
  lemma HprofLaid(e: Env, c: Cursor, hs: seq<Blocks.RecordHeader>, c1: Cursor, h: Blocks.RecordHeader,
                  strings: map<nat, Text>, names: map<nat, nat>, strings': map<nat, Text>, names': map<nat, nat>)
    requires !e.counting && FirstHeapDump(e, c, hs, c1, h, strings, names, strings', names')
    ensures HprofSpec(e, c, strings, names) == Pass1(Success(h.start), strings', names', NextRecord(c1, h))
  {
    HprofSkips(e, c, hs, c1, strings, names);
    HeaderLaidRead(e, c1, h);
    Constants.TagNameHeapDump(h.tag);
  }

  /** Records laid out up to the end of the file, or so close to it that no header fits, none
      of them a HEAP_DUMP and every payload readable: `assert 0` raises AssertionError, the
      tables as visiting them leaves. */
  lemma HprofNoHeapDump(e: Env, c: Cursor, hs: seq<Blocks.RecordHeader>, c1: Cursor,
                        strings: map<nat, Text>, names: map<nat, nat>)
    requires !e.counting && RecordsLaid(e, c, hs, c1) && NoHeapDump(hs)
    requires VisitAll(e, c.position, hs, strings, names).Success?
    requires |e.data| < c1.pos + 9
    ensures var p := HprofSpec(e, c, strings, names);
      && p.heapDump == Failure(AssertionError)
      && (p.strings, p.classNameIds) == VisitAll(e, c.position, hs, strings, names).value
  {
    HprofSkips(e, c, hs, c1, strings, names);
    HeaderShort(e, c1);
  }

  /** Fewer than nine bytes left: the record header read raises EOFError. */
  lemma HeaderShort(e: Env, c: Cursor)
    requires !e.counting && |e.data| < c.pos + 9
    ensures Blocks.RecordHeaderSpec(e, c).result == Failure(EOFError)
  {
    var t := UIntSpec(e, c, 1);
    if t.result.Success? {
      var y := UIntSpec(e, t.after, 4);
      if y.result.Success? {
        assert |Span(e.data, y.after.pos, 4)| < 4;
      }
    }
  }

  /** When pass 1 finds a HEAP_DUMP record, the records in front of it are laid out one after
      another, none of them a HEAP_DUMP, and visiting them leaves the tables pass 1 returns. */
  lemma {:induction false} HprofRead(e: Env, c: Cursor, strings: map<nat, Text>, names: map<nat, nat>)
    requires !e.counting
    ensures var p := HprofSpec(e, c, strings, names);
      p.heapDump.Success? ==>
        exists hs, c1, h :: FirstHeapDump(e, c, hs, c1, h, strings, names, p.strings, p.classNameIds) && h.start == p.heapDump.value
    decreases Remaining(e, c)
  {
    var p := HprofSpec(e, c, strings, names);
    if p.heapDump.Success? {
      var h0 := Blocks.RecordHeaderSpec(e, c).result.value;
      Blocks.RecordHeaderRead(e, c, h0);
      if h0.tag == 0x0C {
        HprofHere(e, c, h0, strings, names);
      } else {
        var v := VisitSpec(e, h0, NextRecord(c, h0), strings, names);
        HprofStep(e, c, h0, strings, names);
        HprofRead(e, NextRecord(c, h0), v.strings, v.classNameIds);
        var hs, c1, h :| FirstHeapDump(e, NextRecord(c, h0), hs, c1, h, v.strings, v.classNameIds, p.strings, p.classNameIds)
                         && h.start == p.heapDump.value;
        FirstHeapDumpCons(e, c, h0, hs, c1, h, strings, names, p.strings, p.classNameIds);
      }
    }
  }

  /** Pass 1 at a HEAP_DUMP record returns it, the tables as they were. */
  lemma HprofHere(e: Env, c: Cursor, h0: Blocks.RecordHeader, strings: map<nat, Text>, names: map<nat, nat>)
    requires !e.counting && Blocks.RecordHeaderSpec(e, c).result == Success(h0) && h0.tag == 0x0C
    ensures var p := HprofSpec(e, c, strings, names);
      FirstHeapDump(e, c, [], c, h0, strings, names, p.strings, p.classNameIds) && p.heapDump == Success(h0.start)
  {
    Blocks.RecordHeaderRead(e, c, h0);
    Constants.TagNameHeapDump(h0.tag);
  }

  /** Pass 1 at a record other than HEAP_DUMP whose payload reads goes on at the next record. */
  lemma HprofStep(e: Env, c: Cursor, h0: Blocks.RecordHeader, strings: map<nat, Text>, names: map<nat, nat>)
    requires !e.counting && Blocks.RecordHeaderSpec(e, c).result == Success(h0) && h0.tag != 0x0C
    ensures var v := VisitSpec(e, h0, NextRecord(c, h0), strings, names);
      && Remaining(e, NextRecord(c, h0)) < Remaining(e, c)
      && (v.Visited? ==> HprofSpec(e, c, strings, names) == HprofSpec(e, NextRecord(c, h0), v.strings, v.classNameIds))
      && (v.Raised? ==> HprofSpec(e, c, strings, names).heapDump == Failure(v.error))
  {
    HeaderNext(e, c, h0);
    Constants.TagNameHeapDump(h0.tag);
  }

  /** A record header that reads leaves the cursor at the next record, further into the file. */
  lemma HeaderNext(e: Env, c: Cursor, h0: Blocks.RecordHeader)
    requires !e.counting && Blocks.RecordHeaderSpec(e, c).result == Success(h0)
    ensures Blocks.RecordHeaderSpec(e, c).after == NextRecord(c, h0)
    ensures Remaining(e, NextRecord(c, h0)) < Remaining(e, c)
  {
    Blocks.RecordHeaderExact(e, c, h0);
    HeaderAdvances(e, c);
  }

  /** A record other than HEAP_DUMP whose payload reads goes in front of the records before the
      first HEAP_DUMP. */
  lemma FirstHeapDumpCons(e: Env, c: Cursor, h0: Blocks.RecordHeader, hs: seq<Blocks.RecordHeader>, c1: Cursor,
                          h: Blocks.RecordHeader, strings: map<nat, Text>, names: map<nat, nat>,
                          strings': map<nat, Text>, names': map<nat, nat>)
    requires HeaderLaid(e, c, h0) && h0.tag != 0x0C
    requires VisitSpec(e, h0, NextRecord(c, h0), strings, names).Visited?
    requires var v := VisitSpec(e, h0, NextRecord(c, h0), strings, names);
      FirstHeapDump(e, NextRecord(c, h0), hs, c1, h, v.strings, v.classNameIds, strings', names')
    ensures FirstHeapDump(e, c, [h0] + hs, c1, h, strings, names, strings', names')
  {
    var hs' := [h0] + hs;
    assert hs'[1..] == hs;
    forall i | 0 <= i < |hs'|
      ensures hs'[i].tag != 0x0C
    {
      if i > 0 {
        assert hs'[i] == hs[i - 1];
      }
    }
  }

  /** Pass 1 returns the HEAP_DUMP record at start with the tables strings' and names' exactly
      when it is the first HEAP_DUMP record laid out from c and visiting the records in front of
      it turns strings and names into strings' and names'. */
  lemma HprofExact(e: Env, c: Cursor, strings: map<nat, Text>, names: map<nat, nat>,
                   start: nat, strings': map<nat, Text>, names': map<nat, nat>)
    requires !e.counting
    ensures var p := HprofSpec(e, c, strings, names);
      p.heapDump == Success(start) && p.strings == strings' && p.classNameIds == names'
      <==> exists hs, c1, h :: FirstHeapDump(e, c, hs, c1, h, strings, names, strings', names') && h.start == start
  {
    HprofRead(e, c, strings, names);
    HprofFound(e, c, strings, names, start, strings', names');
  }

  /** The layout half of HprofExact, with the records in front of the HEAP_DUMP record unnamed. */
  lemma HprofFound(e: Env, c: Cursor, strings: map<nat, Text>, names: map<nat, nat>,
                   start: nat, strings': map<nat, Text>, names': map<nat, nat>)
    requires !e.counting
    ensures (exists hs, c1, h :: FirstHeapDump(e, c, hs, c1, h, strings, names, strings', names') && h.start == start)
      ==> HprofSpec(e, c, strings, names).heapDump == Success(start)
          && HprofSpec(e, c, strings, names).strings == strings' && HprofSpec(e, c, strings, names).classNameIds == names'
  {
    if exists hs, c1, h :: FirstHeapDump(e, c, hs, c1, h, strings, names, strings', names') && h.start == start {
      var hs, c1, h :| FirstHeapDump(e, c, hs, c1, h, strings, names, strings', names') && h.start == start;
      HprofLaid(e, c, hs, c1, h, strings, names, strings', names');
    }
  }

  /** What pass 1 reads from the payload of a STRING record h. */
  function StringOf(e: Env, position: nat, h: Blocks.RecordHeader): Result<(nat, Text)> {
    Blocks.StringPayload(e, Cursor(h.start, position), h.length).result
  }

  /** What pass 1 reads from the payload of a LOAD_CLASS record h. */
  function ClassLoadOf(e: Env, position: nat, h: Blocks.RecordHeader): Result<Blocks.ClassLoad> {
    Blocks.LoadClassPayload(e, Cursor(h.start, position)).result
  }

  /** The contents of the last STRING record of hs with identifier k, if there is one. */
  function LastString(e: Env, position: nat, hs: seq<Blocks.RecordHeader>, k: nat): Option<Text>
    decreases |hs|
  {
    if hs == [] then None
    else match LastString(e, position, hs[1..], k)
      case Some(t) => Some(t)
      case None =>
        var s := StringOf(e, position, hs[0]);
        if Constants.TagName(hs[0].tag) == "STRING" && s.Success? && s.value.0 == k then Some(s.value.1) else None
  }

  /** The class name id of the last LOAD_CLASS record of hs for class k, if there is one. */
  function LastClassName(e: Env, position: nat, hs: seq<Blocks.RecordHeader>, k: nat): Option<nat>
    decreases |hs|
  {
    if hs == [] then None
    else match LastClassName(e, position, hs[1..], k)
      case Some(n) => Some(n)
      case None =>
        var l := ClassLoadOf(e, position, hs[0]);
        if Constants.TagName(hs[0].tag) == "LOAD_CLASS" && l.Success? && l.value.classId == k then Some(l.value.classNameId) else None
  }

  /** Visiting records hs leaves under k in strings the contents of the last STRING record with
      identifier k; a key no STRING record names keeps what it had, or stays absent. */
  lemma {:induction false} VisitAllStrings(e: Env, position: nat, hs: seq<Blocks.RecordHeader>,
                                           strings: map<nat, Text>, names: map<nat, nat>, k: nat)
    requires VisitAll(e, position, hs, strings, names).Success?
    ensures var t := VisitAll(e, position, hs, strings, names).value.0;
      match LastString(e, position, hs, k)
      case Some(s) => k in t && t[k] == s
      case None => (k in t <==> k in strings) && (k in strings ==> t[k] == strings[k])
    decreases |hs|
  {
    if hs != [] {
      var strings1, names1 := VisitFirst(e, position, hs, strings, names);
      VisitAllStrings(e, position, hs[1..], strings1, names1, k);
    }
  }

  /** Visiting records hs leaves under k in class_name_ids the name id of the last LOAD_CLASS
      record for class k; a key no LOAD_CLASS record names keeps what it had, or stays absent. */
  lemma {:induction false} VisitAllClassNames(e: Env, position: nat, hs: seq<Blocks.RecordHeader>,
                                              strings: map<nat, Text>, names: map<nat, nat>, k: nat)
    requires VisitAll(e, position, hs, strings, names).Success?
    ensures var t := VisitAll(e, position, hs, strings, names).value.1;
      match LastClassName(e, position, hs, k)
      case Some(n) => k in t && t[k] == n
      case None => (k in t <==> k in names) && (k in names ==> t[k] == names[k])
    decreases |hs|
  {
    if hs != [] {
      var strings1, names1 := VisitFirst(e, position, hs, strings, names);
      VisitAllClassNames(e, position, hs[1..], strings1, names1, k);
    }
  }

  /** The tables after the first of several records is visited, in terms of what its payload
      reads as. */
  lemma VisitFirst(e: Env, position: nat, hs: seq<Blocks.RecordHeader>, strings: map<nat, Text>, names: map<nat, nat>)
    returns (strings1: map<nat, Text>, names1: map<nat, nat>)
    requires hs != [] && VisitAll(e, position, hs, strings, names).Success?
    ensures VisitAll(e, position, hs, strings, names) == VisitAll(e, position, hs[1..], strings1, names1)
    ensures var h, s, l := hs[0], StringOf(e, position, hs[0]), ClassLoadOf(e, position, hs[0]);
      && (Constants.TagName(h.tag) == "STRING" ==> s.Success? && strings1 == strings[s.value.0 := s.value.1] && names1 == names)
      && (Constants.TagName(h.tag) == "LOAD_CLASS" ==>
            l.Success? && strings1 == strings && names1 == names[l.value.classId := l.value.classNameId])
      && (Constants.TagName(h.tag) != "STRING" && Constants.TagName(h.tag) != "LOAD_CLASS" ==>
            strings1 == strings && names1 == names)
  {
    var v := VisitSpec(e, hs[0], Cursor(hs[0].start + hs[0].length, position), strings, names);
    strings1, names1 := v.strings, v.classNameIds;
  }

  /** Records visited by pass 1 only add to strings and class_name_ids. */
  lemma {:induction false} HprofGrows(e: Env, c: Cursor, strings: map<nat, Text>, names: map<nat, nat>)
    requires !e.counting
    ensures var p := HprofSpec(e, c, strings, names);
      strings.Keys <= p.strings.Keys && names.Keys <= p.classNameIds.Keys
    decreases Remaining(e, c)
  {
    var o := Blocks.RecordHeaderSpec(e, c);
    if o.result.Success? && Constants.TagName(o.result.value.tag) != "HEAP_DUMP" {
      HeaderAdvances(e, c);
      var v := VisitSpec(e, o.result.value, o.after, strings, names);
      if v.Visited? {
        HprofGrows(e, v.after, v.strings, v.classNameIds);
      }
    }
  }

  /** Resolving keeps every reference, its base size and its child keys, and leaves every child
      pointing into the table or at nothing. */
  lemma ResolveAllGraph(refs: map<nat, Reference>)
    ensures ResolveAll(refs).Keys == refs.Keys && Graph(ResolveAll(refs))
    ensures forall k :: k in refs ==>
      && ResolveAll(refs)[k].baseSize == refs[k].baseSize
      && |ResolveAll(refs)[k].children| == |refs[k].children|
      && forall i :: 0 <= i < |refs[k].children| ==> ResolveAll(refs)[k].children[i].0 == refs[k].children[i].0
  {
  }

  /** Linking keeps every class and sets each parent_class to the reference of its parent id,
      when the reference table holds one. */
  lemma LinkParentsLinked(refs: map<nat, Reference>, classes: map<nat, JavaClass>)
    ensures LinkParents(refs, classes).Keys == classes.Keys
    ensures forall k :: k in classes ==>
      && LinkParents(refs, classes)[k].(parentClass := Unlinked) == classes[k].(parentClass := Unlinked)
      && LinkParents(refs, classes)[k].parentClass.Linked?
      && (LinkParents(refs, classes)[k].parentClass.target.Some? <==> classes[k].parentClassId in refs)
      && (LinkParents(refs, classes)[k].parentClass.target.Some? ==>
            LinkParents(refs, classes)[k].parentClass.target.value == classes[k].parentClassId)
  {
  }

  /** The end of build returns the reference table, every child resolved into it, and every
      class linked to its parent's reference or to nothing; it keeps the keys of both tables
      and the strings and class_name_ids. */
  lemma FinishGraph(p2: Pass2)
    ensures var b := Finish(p2);
      b.result.Success? ==>
        && b.result.value == b.tables.references && Graph(b.result.value)
        && b.result.value.Keys == p2.tables.references.Keys && b.tables.classes.Keys == p2.tables.classes.Keys
        && b.tables.strings == p2.tables.strings && b.tables.classNameIds == p2.tables.classNameIds
        && forall k :: k in b.tables.classes ==>
             && b.tables.classes[k].parentClass.Linked?
             && (b.tables.classes[k].parentClass.target.Some? ==> b.tables.classes[k].parentClass.target.value in b.result.value)
  {
    ResolveAllGraph(p2.tables.references);
    LinkParentsLinked(p2.tables.references, p2.tables.classes);
  }

  /** Pass 2 from empty class and reference tables, when nothing stops it, fills the reference
      table with exactly the instances and arrays of the heap dump and the class table with
      exactly its CLASS_DUMP records; strings and class_name_ids stay as they were. */
  lemma RefsKeys(e: Env, c: Cursor, overhead: nat, t: Tables)
    requires t.classes == map[] && t.references == map[]
    ensures var p2 := RefsSpec(e, c, overhead, t);
      var w := WalkSpec(e, c);
      && p2.tables.strings == t.strings && p2.tables.classNameIds == t.classNameIds
      && (p2.raised.None? ==>
            p2.tables.references.Keys == ReferenceIds(w.blocks) && p2.tables.classes.Keys == ClassIds(w.blocks))
  {
    RefsWalk(e, c, overhead, t);
    ApplyAllKeys(overhead, t, WalkSpec(e, c).blocks);
  }

  /** Built from empty class and reference tables, build's result holds exactly the instances
      and arrays of the heap dump, and the class table exactly its CLASS_DUMP records. */
  lemma BuildKeys(data: seq<byte>, pos: nat, overhead: nat, t: Tables)
    requires t.classes == map[] && t.references == map[]
    ensures var b := BuildSpec(data, pos, overhead, t);
      var p1 := ReadHprofSpec(data, pos, t.strings, t.classNameIds);
      b.result.Success? ==>
        && p1.heapDump.Success?
        && var w := WalkSpec(HeapEnv(data), Cursor(p1.heapDump.value, 0));
           && b.result.value.Keys == ReferenceIds(w.blocks)
           && b.tables.classes.Keys == ClassIds(w.blocks)
           && b.tables.strings == p1.strings && b.tables.classNameIds == p1.classNameIds
  {
    var p1 := ReadHprofSpec(data, pos, t.strings, t.classNameIds);
    if p1.heapDump.Success? {
      var t1 := t.(strings := p1.strings, classNameIds := p1.classNameIds);
      var p2 := RefsSpec(HeapEnv(data), Cursor(p1.heapDump.value, 0), overhead, t1);
      RefsKeys(HeapEnv(data), Cursor(p1.heapDump.value, 0), overhead, t1);
      FinishGraph(p2);
    }
  }

  /** How a round of read_hprof's loop ends. */
  datatype Next = Continue | Break | Return(result: Result<Blocks.Block>)

  /** r, with the tables and the file cursor, is what s describes; a block returned is the
      HEAP_DUMP record found. */
  predicate Reports(r: Result<Blocks.Block>, s: Pass1, strings: map<nat, Text>, names: map<nat, nat>, pos: nat) {
    && (r.Success? <==> s.heapDump.Success?)
    && (r.Failure? ==> r.error == s.heapDump.error)
    && (r.Success? ==> r.value.start == s.heapDump.value && r.value.TagName() == "HEAP_DUMP")
    && strings == s.strings && names == s.classNameIds && pos == s.after.pos
  }

  class ReferenceBuilder {
    const f: Parsers.Stream
    /** ARRAY_OVERHEAD, which constants.py does not define. */
    const arrayOverhead: nat
    var strings: map<nat, Text>
    var classNameIds: map<nat, nat>
    var classes: map<nat, JavaClass>
    var references: map<nat, Reference>

    function State(): Tables
      reads this
    {
      Tables(strings, classNameIds, classes, references)
    }

    constructor (f: Parsers.Stream, arrayOverhead: nat)
      ensures this.f == f && this.arrayOverhead == arrayOverhead
      ensures State() == Tables(map[], map[], map[], map[])
    {
      this.f := f;
      this.arrayOverhead := arrayOverhead;
      strings := map[];
      classNameIds := map[];
      classes := map[];
      references := map[];
    }

    /** ReferenceBuilder.read_hprof: the HEAP_DUMP block, with strings and class_name_ids filled
        from the records before it. */
    method ReadHprof() returns (r: Result<Blocks.Block>)
      modifies f`pos, this`strings, this`classNameIds
      ensures Reports(r, ReadHprofSpec(f.data, old(f.pos), old(strings), old(classNameIds)), strings, classNameIds, f.pos)
    {
      var po := Parsers.OpenHProf(f);
      if po.Failure? {
        return Failure(po.error);
      }
      r := ReadRecords(po.value);
    }

    /** read_hprof's loop over the records of an HProfParser p. */
    method ReadRecords(p: Parsers.Parser) returns (r: Result<Blocks.Block>)
      requires !p.counting && p.f == f
      modifies f`pos, p`position, this`strings, this`classNameIds
      ensures Reports(r, HprofSpec(old(p.Sees()), old(p.At()), old(strings), old(classNameIds)), strings, classNameIds, f.pos)
    {
      var e := p.Sees();
      ghost var goal := HprofSpec(e, p.At(), strings, classNameIds);
      while true
        invariant p.Sees() == e
        invariant HprofSpec(e, p.At(), strings, classNameIds) == goal
        decreases Remaining(e, p.At())
      {
        var next := ReadRecord(p);
        match next {
          case Continue =>
          case Break => break;
          case Return(result) => return result;
        }
      }
      r := Failure(AssertionError);
    }

    /** One round of read_hprof's loop: read a record header, then return the HEAP_DUMP block or
        visit any other record. EOFError from the header breaks out of the loop. */
    method ReadRecord(p: Parsers.Parser) returns (next: Next)
      requires !p.counting && p.f == f
      modifies f`pos, p`position, this`strings, this`classNameIds
      ensures var goal := HprofSpec(old(p.Sees()), old(p.At()), old(strings), old(classNameIds));
        && p.Sees() == old(p.Sees())
        && match next
           case Continue =>
             && HprofSpec(p.Sees(), p.At(), strings, classNameIds) == goal
             && Remaining(p.Sees(), p.At()) < Remaining(old(p.Sees()), old(p.At()))
           case Break => goal == Pass1(Failure(AssertionError), strings, classNameIds, p.At())
           case Return(r) => Reports(r, goal, strings, classNameIds, f.pos)
    {
      var e := p.Sees();
      ghost var c := p.At();
      ghost var strings0, names0 := strings, classNameIds;
      var b := Blocks.ReadNextBlock(p);
      if b.Failure? {
        if b.error == EOFError {
          return Break;
        }
        return Return(Failure(b.error));
      }
      HeaderAdvances(e, c);
      var block := b.value;
      if block.TagName() == "HEAP_DUMP" {
        return Return(Success(block));
      }
      ghost var h := Blocks.RecordHeader(block.tag, block.recordTime, block.start, block.length);
      assert Blocks.RecordHeaderSpec(e, c).result == Success(h);
      ghost var v := VisitSpec(e, h, p.At(), strings, classNameIds);
      var visited := Visit(block);
      if visited.Failure? {
        assert HprofSpec(e, c, strings0, names0) == Pass1(Failure(visited.error), strings0, names0, v.after);
        return Return(Failure(visited.error));
      }
      next := Continue;
    }

    /** The body of read_hprof's loop for a record other than HEAP_DUMP, read lazily through the
        block's properties. */
    method Visit(block: Blocks.Block) returns (r: Result<()>)
      requires block.sId.None? && block.sContents.None?
      requires block.serialNumber.None? && block.classId.None? && block.stackTrace.None? && block.classNameId.None?
      modifies block.parser.f`pos, block.parser`position, block, this`strings, this`classNameIds
      ensures var h := Blocks.RecordHeader(block.tag, block.recordTime, block.start, block.length);
        match VisitSpec(old(block.parser.Sees()), h, old(block.parser.At()), old(strings), old(classNameIds))
        case Raised(err, after) =>
          r == Failure(err) && strings == old(strings) && classNameIds == old(classNameIds) && block.parser.At() == after
        case Visited(strings', names', after) =>
          r.Success? && strings == strings' && classNameIds == names' && block.parser.At() == after
    {
      if block.TagName() == "STRING" {
        r := VisitString(block);
      } else if block.TagName() == "LOAD_CLASS" {
        r := VisitLoadClass(block);
      } else {
        r := Success(());
      }
    }

    /** `self.strings[b.id] = b.contents`: the contents are read first, the id then comes from
        the cache. */
    method VisitString(block: Blocks.Block) returns (r: Result<()>)
      requires block.sId.None? && block.sContents.None?
      modifies block.parser.f`pos, block.parser`position, block`sId, block`sContents, this`strings
      ensures var s := Blocks.StringPayload(old(block.parser.Sees()), Cursor(block.start, old(block.parser.position)), block.length);
        if s.result.Failure? then r == Failure(s.result.error) && strings == old(strings) && block.parser.At() == s.after
        else (r.Success? && strings == old(strings)[s.result.value.0 := s.result.value.1]
              && block.parser.At() == Cursor(old(block.parser.f.pos), s.after.position))
    {
      var contents := block.Contents();
      if contents.Failure? {
        return Failure(contents.error);
      }
      var id := block.Id();
      assert id.Success?;
      strings := strings[id.value := contents.value];
      r := Success(());
    }

    /** `self.class_name_ids[b.class_id] = b.class_name_id`: the name id is read first, the class
        id then comes from the cache. */
    method VisitLoadClass(block: Blocks.Block) returns (r: Result<()>)
      requires block.serialNumber.None? && block.classId.None? && block.stackTrace.None? && block.classNameId.None?
      modifies block.parser.f`pos, block.parser`position, block`serialNumber, block`classId, block`stackTrace,
        block`classNameId, this`classNameIds
      ensures var l := Blocks.LoadClassPayload(old(block.parser.Sees()), Cursor(block.start, old(block.parser.position)));
        if l.result.Failure? then r == Failure(l.result.error) && classNameIds == old(classNameIds) && block.parser.At() == l.after
        else (r.Success? && classNameIds == old(classNameIds)[l.result.value.classId := l.result.value.classNameId]
              && block.parser.At() == Cursor(old(block.parser.f.pos), l.after.position))
    {
      var nameId := block.ClassNameId();
      if nameId.Failure? {
        return Failure(nameId.error);
      }
      var classId := block.ClassId();
      assert classId.Success?;
      classNameIds := classNameIds[classId.value := nameId.value];
      r := Success(());
    }

    /** One element of read_references' loop entered into the tables. */
    method Record(b: HeapBlock) returns (r: Result<()>)
      modifies this`classes, this`references
      ensures match Apply(arrayOverhead, old(State()), b)
        case Failure(err) => r == Failure(err) && State() == old(State())
        case Success(t) => r.Success? && State() == t
    {
      match b {
        case ClassDump(id, _, superClassId, _, _, _, _, _, _, _, _, instanceFields) =>
          if id !in classNameIds || classNameIds[id] !in strings {
            return Failure(KeyError);
          }
          classes := classes[id := JavaClass(strings[classNameIds[id]], superClassId, instanceFields, Unlinked)];
        case InstanceDump(id, _, classObjectId, _) =>
          if classObjectId !in classes {
            return Failure(KeyError);
          }
          var ref := BuildFromInstanceDump(strings, classes[classObjectId], b);
          if ref.Failure? {
            return Failure(ref.error);
          }
          references := references[id := ref.value];
        case ObjectArrayDump(id, _, _, elements) =>
          references := references[id := ObjectArrayOf(arrayOverhead, elements)];
        case PrimitiveArrayDump(id, _, elementType, size) =>
          references := references[id := PrimitiveArrayOf(arrayOverhead, elementType, TypeSize(IdSize, elementType), size)];
        case RootBlock(_, _) =>
      }
      r := Success(());
    }

    /** ReferenceBuilder.read_references: a HeapDumpParser from the start of the HEAP_DUMP
        record, each element entered as it is read. */
    method ReadReferences(heapDump: Blocks.Block) returns (r: Result<()>)
      modifies f`pos, this`classes, this`references
      ensures var s := RefsSpec(HeapEnv(f.data), Cursor(heapDump.start, 0), arrayOverhead, old(State()));
        && (r.Success? <==> s.raised.None?) && (r.Failure? ==> r.error == s.raised.value)
        && State() == s.tables && f.pos == s.after.pos
    {
      f.SeekTo(heapDump.start);
      var p := new Parsers.Parser.HeapDump(f, IdSize, None);
      var e := p.Sees();
      ghost var c0 := p.At();
      ghost var t0 := State();
      while true
        invariant p.Sees() == e && e == HeapEnv(f.data) && p.f == f
        invariant RefsSpec(e, p.At(), arrayOverhead, State()) == RefsSpec(e, c0, arrayOverhead, t0)
        decreases Remaining(e, p.At())
      {
        var b := ReadNextSubRecord(p);
        if b.Failure? {
          return if b.error == EOFError then Success(()) else Failure(b.error);
        }
        if b.value.None? {
          return Success(());
        }
        var a := Record(b.value.value);
        if a.Failure? {
          return a;
        }
      }
    }

    /** build's first loop: every class linked to the reference under its parent class id. */
    method LinkClasses()
      modifies this`classes
      ensures classes == LinkParents(references, old(classes))
    {
      ghost var before := classes;
      var todo := classes.Keys;
      while todo != {}
        invariant todo <= before.Keys == classes.Keys
        invariant forall k :: k in classes ==> classes[k] == if k in todo then before[k] else LinkParent(references, before[k])
        decreases todo
      {
        var k :| k in todo;
        classes := classes[k := LinkParent(references, classes[k])];
        todo := todo - {k};
      }
    }

    /** build's second loop: resolve_children on every reference, against the whole table. */
    method ResolveReferences()
      modifies this`references
      ensures references == ResolveAll(old(references))
    {
      var table := references;
      var todo := references.Keys;
      while todo != {}
        invariant todo <= table.Keys == references.Keys
        invariant forall k :: k in references ==>
          references[k] == if k in todo then table[k] else table[k].(children := Resolve(table, table[k].children))
        decreases todo
      {
        var k :| k in todo;
        var children := ResolveChildren(table, references[k].children);
        references := references[k := references[k].(children := children)];
        todo := todo - {k};
      }
    }

    /** ReferenceBuilder.build: both passes, then the links and the resolution; the table of
        references is what it returns. */
    method Build() returns (r: Result<map<nat, Reference>>)
      modifies f`pos, this`strings, this`classNameIds, this`classes, this`references
      ensures var s := BuildSpec(f.data, old(f.pos), arrayOverhead, old(State()));
        r == s.result && State() == s.tables && f.pos == s.pos
    {
      var heapDump := ReadHprof();
      if heapDump.Failure? {
        return Failure(heapDump.error);
      }
      var read := ReadReferences(heapDump.value);
      if read.Failure? {
        return Failure(read.error);
      }
      LinkClasses();
      ResolveReferences();
      r := Success(references);
    }
  }
}
