/** The top-level records of blocks.py and HProfParser.read_next_block, which reads a record's
    header and skips its payload. STRING and LOAD_CLASS payloads are read on first access, inside
    goto(start), and cached. */
module Blocks {
  import opened Wrappers
  import opened BigEndian
  import Constants
  import opened Decoding
  import opened Parsers
  import Utf8

  /** The contents of a STRING record: text when the bytes are UTF-8, the bytes themselves when not. */
  datatype Text = Unicode(chars: string) | Raw(bytes: seq<byte>)

  /** `contents.decode('utf-8')`, falling back to `str(contents)` when decoding fails. */
  function DecodeContents(bs: seq<byte>): Text {
    match Utf8.Decode(bs)
    case Some(s) => Unicode(s)
    case None => Raw(bs)
  }

  /** The text is exactly what the bytes encode; raw bytes are kept only when they are not UTF-8. */
  lemma DecodeContentsExact(bs: seq<byte>, s: string, b: seq<byte>)
    ensures DecodeContents(bs) == Unicode(s) <==> Utf8.Encode(s) == bs
    ensures DecodeContents(bs) == Raw(b) <==> b == bs && Utf8.Decode(bs).None?
  {
    if Utf8.Decode(bs).Some? {
      Utf8.EncodeDecode(bs);
    }
    if Utf8.Encode(s) == bs {
      Utf8.DecodeEncode(s);
    }
  }

  /** The record classes of BLOCK_CLASSES_BY_TAG, GenericBlock for every other name. */
  datatype BlockKind = GenericBlock | StringBlock | LoadClass | HeapDump

  /** `BLOCK_CLASSES_BY_TAG.get(tag_name, GenericBlock)`. */
  function BlockClass(tagName: string): BlockKind {
    if tagName == "STRING" then StringBlock
    else if tagName == "LOAD_CLASS" then LoadClass
    else if tagName == "HEAP_DUMP" then HeapDump
    else GenericBlock
  }

  /** Only tags 0x01, 0x02 and 0x0C get their own class; HEAP_DUMP_SEGMENT (0x1C) and every
      other tag, mapped or not, is a GenericBlock. */
  lemma BlockClassOfTag(tag: int)
    ensures BlockClass(Constants.TagName(tag)) == StringBlock <==> tag == 0x01
    ensures BlockClass(Constants.TagName(tag)) == LoadClass <==> tag == 0x02
    ensures BlockClass(Constants.TagName(tag)) == HeapDump <==> tag == 0x0C
    ensures tag == 0x1C ==> BlockClass(Constants.TagName(tag)) == GenericBlock
  {
    Constants.TagNameHeapDump(tag);
  }

  /** What StringBlock.read_contents reads at c: an identifier, then `length - id_size` bytes
      straight from the file (to the end when that is negative), decoded. Any failure of the
      identifier read lands in the bare `except`, whose `str(contents)` meets an unassigned local. */
  function StringPayload(e: Env, c: Cursor, length: nat): Outcome<(nat, Text)> {
    var id := IdSpec(e, c);
    if id.result.Failure? then Outcome(Failure(UnboundLocalError), id.after)
    else
      var raw := FileRead(e.data, id.after.pos, length - e.idSize);
      Outcome(Success((id.result.value, DecodeContents(raw))), id.after.(pos := id.after.pos + |raw|))
  }

  /** A STRING payload reads as identifier id and text s exactly when id's encoding is at c and
      the bytes read after it, `length - id_size` of them or all that are left when that is
      negative, are the UTF-8 encoding of s. */
  lemma StringPayloadExact(e: Env, c: Cursor, length: nat, id: nat, s: string)
    ensures var w := IdWidth(e.idSize);
      StringPayload(e, c, length).result == Success((id, Unicode(s)))
      <==> && id < Pow256(w) && Consumed(e, c, Advance(e, c, w), ToBE(id, w))
           && Utf8.Encode(s) == FileRead(e.data, c.pos + w, length - e.idSize)
  {
    var w := IdWidth(e.idSize);
    IdExact(e, c, id, Advance(e, c, w));
    var o := IdSpec(e, c);
    if o.result.Success? {
      DecodeContentsExact(FileRead(e.data, c.pos + w, length - e.idSize), s, []);
    }
  }

  /** A STRING record of an id-size-4 or -8 file holding an identifier and the UTF-8 encoding of
      s, its length field counting both, reads as that identifier and s. */
  lemma StringPayloadEncoded(e: Env, c: Cursor, length: nat, id: nat, s: string)
    requires e.idSize == 4 || e.idSize == 8
    requires id < Pow256(e.idSize) && length == e.idSize + |Utf8.Encode(s)|
    requires Consumed(e, c, Advance(e, c, length), ToBE(id, e.idSize) + Utf8.Encode(s))
    ensures StringPayload(e, c, length).result == Success((id, Unicode(s)))
  {
    var w := e.idSize;
    ConsumedSplit(e, c, Advance(e, c, length), ToBE(id, w), Utf8.Encode(s));
    ReadConsumed(e, Advance(e, c, w), Advance(e, c, length), Utf8.Encode(s));
    StringPayloadExact(e, c, length, id, s);
  }

  /** Bytes that were consumed are what a plain file read of their length returns. */
  lemma ReadConsumed(e: Env, c: Cursor, c2: Cursor, bs: seq<byte>)
    requires Consumed(e, c, c2, bs)
    ensures FileRead(e.data, c.pos, |bs|) == bs
  {
  }

  /** The fields of a LOAD_CLASS payload. */
  datatype ClassLoad = ClassLoad(serialNumber: nat, classId: nat, stackTrace: nat, classNameId: nat)

  /** LoadClass.read_contents: i4 serial, id class_id, i4 stack-trace serial, id class_name_id. */
  function LoadClassPayload(e: Env, c: Cursor): Outcome<ClassLoad> {
    var serial :- UIntSpec(e, c, 4);
    var cls :- IdSpec(e, serial.1);
    var trace :- UIntSpec(e, cls.1, 4);
    var name :- IdSpec(e, trace.1);
    Outcome(Success(ClassLoad(serial.0, cls.0, trace.0, name.0)), name.1)
  }

  predicate ValidClassLoad(w: nat, l: ClassLoad) {
    l.serialNumber < Pow256(4) && l.classId < Pow256(w) && l.stackTrace < Pow256(4) && l.classNameId < Pow256(w)
  }

  function EncodeClassLoad(w: nat, l: ClassLoad): seq<byte> {
    ToBE(l.serialNumber, 4) + ToBE(l.classId, w) + ToBE(l.stackTrace, 4) + ToBE(l.classNameId, w)
  }

  /** A LOAD_CLASS payload reads as l exactly on l's encoding, 8 + 2 * id bytes long. */
  lemma LoadClassExact(e: Env, c: Cursor, l: ClassLoad, c2: Cursor)
    ensures LoadClassPayload(e, c) == Outcome(Success(l), c2)
        <==> ValidClassLoad(IdWidth(e.idSize), l) && Consumed(e, c, c2, EncodeClassLoad(IdWidth(e.idSize), l))
    ensures |EncodeClassLoad(IdWidth(e.idSize), l)| == 8 + 2 * IdWidth(e.idSize)
  {
    if LoadClassPayload(e, c) == Outcome(Success(l), c2) {
      LoadClassRead(e, c, l, c2);
    }
    if ValidClassLoad(IdWidth(e.idSize), l) && Consumed(e, c, c2, EncodeClassLoad(IdWidth(e.idSize), l)) {
      LoadClassParse(e, c, l, c2);
    }
  }

  lemma LoadClassRead(e: Env, c: Cursor, l: ClassLoad, c2: Cursor)
    requires LoadClassPayload(e, c) == Outcome(Success(l), c2)
    ensures ValidClassLoad(IdWidth(e.idSize), l) && Consumed(e, c, c2, EncodeClassLoad(IdWidth(e.idSize), l))
  {
    var w := IdWidth(e.idSize);
    var a := ToBE(l.serialNumber, 4);
    var b := ToBE(l.classId, w);
    var d := ToBE(l.stackTrace, 4);
    var n := ToBE(l.classNameId, w);
    var c1 := Advance(e, c, 4);
    var c2' := Advance(e, c1, w);
    var c3 := Advance(e, c2', 4);
    UIntExact(e, c, 4, l.serialNumber, c1);
    IdExact(e, c1, l.classId, c2');
    UIntExact(e, c2', 4, l.stackTrace, c3);
    IdExact(e, c3, l.classNameId, c2);
    ConsumedThen(e, c, c1, c2', a, b);
    ConsumedThen(e, c, c2', c3, a + b, d);
    ConsumedThen(e, c, c3, c2, a + b + d, n);
  }

  lemma LoadClassParse(e: Env, c: Cursor, l: ClassLoad, c2: Cursor)
    requires ValidClassLoad(IdWidth(e.idSize), l) && Consumed(e, c, c2, EncodeClassLoad(IdWidth(e.idSize), l))
    ensures LoadClassPayload(e, c) == Outcome(Success(l), c2)
  {
    var w := IdWidth(e.idSize);
    var a := ToBE(l.serialNumber, 4);
    var b := ToBE(l.classId, w);
    var d := ToBE(l.stackTrace, 4);
    var n := ToBE(l.classNameId, w);
    var c1 := Advance(e, c, 4);
    var c2' := Advance(e, c1, w);
    var c3 := Advance(e, c2', 4);
    ConsumedSplit(e, c, c2, a + b + d, n);
    ConsumedSplit(e, c, c3, a + b, d);
    ConsumedSplit(e, c, c2', a, b);
    UIntExact(e, c, 4, l.serialNumber, c1);
    IdExact(e, c1, l.classId, c2');
    UIntExact(e, c2', 4, l.stackTrace, c3);
    IdExact(e, c3, l.classNameId, c2);
  }

  /** The header of a top-level record as read_next_block reads it. */
  datatype RecordHeader = RecordHeader(tag: nat, recordTime: nat, start: nat, length: nat)

  /** HProfParser.read_next_block: tag, i4 time, i4 length, then a skip over the payload. */
  function RecordHeaderSpec(e: Env, c: Cursor): Outcome<RecordHeader> {
    var tag :- UIntSpec(e, c, 1);
    var time :- UIntSpec(e, tag.1, 4);
    var length :- UIntSpec(e, time.1, 4);
    var skip :- SeekSpec(e, length.1, length.0);
    Outcome(Success(RecordHeader(tag.0, time.0, length.1.pos, length.0)), skip.1)
  }

  /** A record reads as h exactly when its 9 header bytes encode h's tag, time and length; the
      payload starts right after them and the next record right after the payload, whether or
      not the payload is all there. */
  lemma RecordHeaderExact(e: Env, c: Cursor, h: RecordHeader)
    requires !e.counting
    ensures RecordHeaderSpec(e, c).result == Success(h)
        <==> && h.tag < 256 && h.recordTime < Pow256(4) && h.length < Pow256(4) && h.start == c.pos + 9
             && Consumed(e, c, Advance(e, c, 9), [h.tag as byte] + ToBE(h.recordTime, 4) + ToBE(h.length, 4))
    ensures RecordHeaderSpec(e, c).result == Success(h) ==> RecordHeaderSpec(e, c).after.pos == h.start + h.length
  {
    if RecordHeaderSpec(e, c).result == Success(h) {
      RecordHeaderRead(e, c, h);
    }
    if && h.tag < 256 && h.recordTime < Pow256(4) && h.length < Pow256(4) && h.start == c.pos + 9
       && Consumed(e, c, Advance(e, c, 9), [h.tag as byte] + ToBE(h.recordTime, 4) + ToBE(h.length, 4))
    {
      RecordHeaderParse(e, c, h);
    }
  }

  lemma RecordHeaderRead(e: Env, c: Cursor, h: RecordHeader)
    requires !e.counting
    requires RecordHeaderSpec(e, c).result == Success(h)
    ensures && h.tag < 256 && h.recordTime < Pow256(4) && h.length < Pow256(4) && h.start == c.pos + 9
            && Consumed(e, c, Advance(e, c, 9), [h.tag as byte] + ToBE(h.recordTime, 4) + ToBE(h.length, 4))
    ensures RecordHeaderSpec(e, c).after.pos == h.start + h.length
  {
    var c1 := Advance(e, c, 1);
    var c2 := Advance(e, c1, 4);
    var c3 := Advance(e, c2, 4);
    var y := ToBE(h.recordTime, 4);
    var z := ToBE(h.length, 4);
    var t := UIntSpec(e, c, 1);
    UIntExact(e, c, 1, t.result.value, t.after);
    UIntExact(e, c1, 4, h.recordTime, c2);
    UIntExact(e, c2, 4, h.length, c3);
    assert Pow256(1) == 256;
    ToBEByte(h.tag);
    ConsumedThen(e, c, c1, c2, [h.tag as byte], y);
    ConsumedThen(e, c, c2, c3, [h.tag as byte] + y, z);
  }

  lemma RecordHeaderParse(e: Env, c: Cursor, h: RecordHeader)
    requires !e.counting
    requires && h.tag < 256 && h.recordTime < Pow256(4) && h.length < Pow256(4) && h.start == c.pos + 9
             && Consumed(e, c, Advance(e, c, 9), [h.tag as byte] + ToBE(h.recordTime, 4) + ToBE(h.length, 4))
    ensures RecordHeaderSpec(e, c).result == Success(h)
  {
    var c1 := Advance(e, c, 1);
    var c2 := Advance(e, c1, 4);
    var c3 := Advance(e, c2, 4);
    var y := ToBE(h.recordTime, 4);
    var z := ToBE(h.length, 4);
    ToBEByte(h.tag);
    ConsumedSplit(e, c, c3, [h.tag as byte] + y, z);
    ConsumedSplit(e, c, c2, [h.tag as byte], y);
    UIntExact(e, c, 1, h.tag, c1);
    UIntExact(e, c1, 4, h.recordTime, c2);
    UIntExact(e, c2, 4, h.length, c3);
  }

  /** A top-level record: BaseBlock's fields, the record class, and the caches StringBlock and
      LoadClass fill from the payload. */
  class Block {
    const kind: BlockKind
    const tag: nat
    const parser: Parser
    const recordTime: nat
    const start: nat
    const length: nat
    var sId: Option<nat>
    var sContents: Option<Text>
    var serialNumber: Option<nat>
    var classId: Option<nat>
    var stackTrace: Option<nat>
    var classNameId: Option<nat>

    constructor (kind: BlockKind, tag: nat, parser: Parser, recordTime: nat, start: nat, length: nat)
      ensures this.kind == kind && this.tag == tag && this.parser == parser
      ensures this.recordTime == recordTime && this.start == start && this.length == length
      ensures sId.None? && sContents.None?
      ensures serialNumber.None? && classId.None? && stackTrace.None? && classNameId.None?
    {
      this.kind := kind;
      this.tag := tag;
      this.parser := parser;
      this.recordTime := recordTime;
      this.start := start;
      this.length := length;
      sId := None;
      sContents := None;
      serialNumber := None;
      classId := None;
      stackTrace := None;
      classNameId := None;
    }

    /** BaseBlock.tag_name. */
    function TagName(): string {
      Constants.TagName(tag)
    }

    /** The effect of StringBlock.read_contents, err being the exception it raised. On success the
        cursor is back where it was and both caches hold the payload; on failure the cursor stays
        where the identifier read left it and the caches are untouched. */
    twostate predicate ReadString(err: Option<Error>)
      reads this, parser, parser.f
    {
      var o := StringPayload(old(parser.Sees()), Cursor(start, old(parser.position)), length);
      if o.result.Failure? then
        && err == Some(o.result.error)
        && parser.At() == o.after
        && sId == old(sId) && sContents == old(sContents)
      else
        && err.None?
        && parser.f.pos == old(parser.f.pos) && parser.position == o.after.position
        && sId == Some(o.result.value.0) && sContents == Some(o.result.value.1)
    }

    method StringReadContents() returns (r: Result<()>)
      modifies parser.f`pos, parser`position, this`sId, this`sContents
      ensures ReadString(if r.Success? then None else Some(r.error))
    {
      var saved := parser.GotoEnter(Some(start));
      var id := parser.ReadId();
      if id.Failure? {
        return Failure(UnboundLocalError);
      }
      var raw := parser.f.Read(length - parser.idSize);
      var contents := DecodeContents(raw);
      parser.GotoExit(saved);
      sId := Some(id.value);
      sContents := Some(contents);
      r := Success(());
    }

    /** StringBlock.id: the cached identifier, reading the payload only while there is none. */
    method Id() returns (r: Result<nat>)
      modifies parser.f`pos, parser`position, this`sId, this`sContents
      ensures old(sId).Some? ==>
        r == Success(old(sId).value) && parser.At() == old(parser.At()) && unchanged(this)
      ensures old(sId).None? ==>
        ReadString(if r.Success? then None else Some(r.error)) && (r.Success? ==> sId == Some(r.value))
    {
      if sId.None? {
        var rc := StringReadContents();
        if rc.Failure? {
          return Failure(rc.error);
        }
      }
      r := Success(sId.value);
    }

    /** StringBlock.contents: the cached text, reading the payload only while there is none. */
    method Contents() returns (r: Result<Text>)
      modifies parser.f`pos, parser`position, this`sId, this`sContents
      ensures old(sContents).Some? ==>
        r == Success(old(sContents).value) && parser.At() == old(parser.At()) && unchanged(this)
      ensures old(sContents).None? ==>
        ReadString(if r.Success? then None else Some(r.error)) && (r.Success? ==> sContents == Some(r.value))
    {
      if sContents.None? {
        var rc := StringReadContents();
        if rc.Failure? {
          return Failure(rc.error);
        }
      }
      r := Success(sContents.value);
    }

    /** The effect of LoadClass.read_contents: each cache is set as soon as its field is read, so a
        failure leaves the earlier ones set and the cursor where the failing read left it. */
    twostate predicate ReadClassLoad(err: Option<Error>)
      reads this, parser, parser.f
    {
      var e := old(parser.Sees());
      var serial := UIntSpec(e, Cursor(start, old(parser.position)), 4);
      var cls := IdSpec(e, serial.after);
      var trace := UIntSpec(e, cls.after, 4);
      var name := IdSpec(e, trace.after);
      var o := LoadClassPayload(e, Cursor(start, old(parser.position)));
      && serialNumber == (if serial.result.Success? then Some(serial.result.value) else old(serialNumber))
      && classId == (if serial.result.Success? && cls.result.Success? then Some(cls.result.value) else old(classId))
      && stackTrace == (if serial.result.Success? && cls.result.Success? && trace.result.Success?
                        then Some(trace.result.value) else old(stackTrace))
      && classNameId == (if o.result.Success? then Some(name.result.value) else old(classNameId))
      && (if o.result.Failure? then err == Some(o.result.error) && parser.At() == o.after
          else err.None? && parser.f.pos == old(parser.f.pos) && parser.position == o.after.position)
    }

    method LoadClassReadContents() returns (r: Result<()>)
      modifies parser.f`pos, parser`position, this`serialNumber, this`classId, this`stackTrace, this`classNameId
      ensures ReadClassLoad(if r.Success? then None else Some(r.error))
    {
      var saved := parser.GotoEnter(Some(start));
      var serial := parser.I4();
      if serial.Failure? {
        return Failure(serial.error);
      }
      serialNumber := Some(serial.value);
      var cls := parser.ReadId();
      if cls.Failure? {
        return Failure(cls.error);
      }
      classId := Some(cls.value);
      var trace := parser.I4();
      if trace.Failure? {
        return Failure(trace.error);
      }
      stackTrace := Some(trace.value);
      var name := parser.ReadId();
      if name.Failure? {
        return Failure(name.error);
      }
      classNameId := Some(name.value);
      parser.GotoExit(saved);
      r := Success(());
    }

    /** LoadClass.class_id: the cached class id, reading the payload only while there is none. */
    method ClassId() returns (r: Result<nat>)
      modifies parser.f`pos, parser`position, this`serialNumber, this`classId, this`stackTrace, this`classNameId
      ensures old(classId).Some? ==>
        r == Success(old(classId).value) && parser.At() == old(parser.At()) && unchanged(this)
      ensures old(classId).None? ==>
        ReadClassLoad(if r.Success? then None else Some(r.error)) && (r.Success? ==> classId == Some(r.value))
    {
      if classId.None? {
        var rc := LoadClassReadContents();
        if rc.Failure? {
          return Failure(rc.error);
        }
      }
      r := Success(classId.value);
    }

    /** LoadClass.class_name_id: the cached name id, reading the payload only while there is none. */
    method ClassNameId() returns (r: Result<nat>)
      modifies parser.f`pos, parser`position, this`serialNumber, this`classId, this`stackTrace, this`classNameId
      ensures old(classNameId).Some? ==>
        r == Success(old(classNameId).value) && parser.At() == old(parser.At()) && unchanged(this)
      ensures old(classNameId).None? ==>
        ReadClassLoad(if r.Success? then None else Some(r.error)) && (r.Success? ==> classNameId == Some(r.value))
    {
      if classNameId.None? {
        var rc := LoadClassReadContents();
        if rc.Failure? {
          return Failure(rc.error);
        }
      }
      r := Success(classNameId.value);
    }

    /** HeapDump.__iter__: it calls `heap_parser(self)` as a module-level name, which does not
        exist, so iterating a HEAP_DUMP block raises NameError before anything is read. */
    method Iterate() returns (r: Result<seq<()>>)
      ensures r == Failure(NameError)
    {
      r := Failure(NameError);
    }

    /** HeapDump.heap_parser: inside goto(start), a HeapDumpParser over the same file with the
        record's length as its bound. */
    method HeapParser() returns (hp: Parser, saved: nat)
      modifies parser.f`pos
      ensures saved == old(parser.f.pos) && parser.f.pos == start
      ensures fresh(hp) && hp.f == parser.f && hp.counting && hp.length == Some(length)
      ensures hp.idSize == parser.idSize && hp.position == 0
    {
      saved := parser.GotoEnter(Some(start));
      hp := new Parser.HeapDump(parser.f, parser.idSize, Some(length));
    }
  }

  /** HProfParser.read_next_block: the record's header, the payload skipped, and a block of the
      class its tag names. */
  method ReadNextBlock(p: Parser) returns (r: Result<Block>)
    modifies p.f`pos, p`position
    ensures var o := RecordHeaderSpec(old(p.Sees()), old(p.At()));
      && p.At() == o.after
      && (r.Success? <==> o.result.Success?)
      && (r.Failure? ==> r.error == o.result.error)
      && (r.Success? ==>
            var h := o.result.value;
            && fresh(r.value) && r.value.parser == p
            && r.value.tag == h.tag && r.value.recordTime == h.recordTime
            && r.value.start == h.start && r.value.length == h.length
            && r.value.kind == BlockClass(Constants.TagName(h.tag))
            && r.value.sId.None? && r.value.sContents.None?
            && r.value.serialNumber.None? && r.value.classId.None?
            && r.value.stackTrace.None? && r.value.classNameId.None?)
  {
    var tag := p.I1();
    if tag.Failure? {
      return Failure(tag.error);
    }
    var time := p.I4();
    if time.Failure? {
      return Failure(time.error);
    }
    var length := p.I4();
    if length.Failure? {
      return Failure(length.error);
    }
    var start := p.f.pos;
    var skip := p.Seek(length.value);
    if skip.Failure? {
      return Failure(skip.error);
    }
    var b := new Block(BlockClass(Constants.TagName(tag.value)), tag.value, p, time.value, start, length.value);
    r := Success(b);
  }
}
