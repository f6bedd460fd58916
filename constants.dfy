/** The lookup tables of the HPROF binary format: record tags, heap-dump sub-record tags,
    basic-type codes and the byte widths of the primitive types. */
module Constants {
  import opened Wrappers

  /** Top-level record tag -> record name. */
  const Tags: map<int, string> := map[
    0x01 := "STRING",
    0x02 := "LOAD_CLASS",
    0x03 := "UNLOAD_CLASS",
    0x04 := "STACK_FRAME",
    0x05 := "STACK_TRACE",
    0x06 := "ALLOC_SITES",
    0x07 := "HEAP_SUMMARY",
    0x0A := "START_THREAD",
    0x0B := "END_THREAD",
    0x0C := "HEAP_DUMP",
    0x1C := "HEAP_DUMP_SEGMENT",
    0x2C := "HEAP_DUMP_END",
    0x0D := "CPU_SAMPLES",
    0x0E := "CONTROL_SETTINGS"
  ]

  /** Heap-dump sub-record tag -> sub-record name. */
  const HeapDumpSubTags: map<int, string> := map[
    0xFF := "ROOT_UNKNOWN",
    0x01 := "ROOT_JNI_GLOBAL",
    0x02 := "ROOT_JNI_LOCAL",
    0x03 := "ROOT_JAVA_FRAME",
    0x04 := "ROOT_NATIVE_STACK",
    0x05 := "ROOT_STICKY_CLASS",
    0x06 := "ROOT_THREAD_BLOCK",
    0x07 := "ROOT_MONITOR_USED",
    0x08 := "ROOT_THREAD_OBJECT",
    0x20 := "CLASS_DUMP",
    0x21 := "INSTANCE_DUMP",
    0x22 := "OBJECT_ARRAY_DUMP",
    0x23 := "PRIMITIVE_ARRAY_DUMP"
  ]

  /** Basic-type code -> type name. */
  const ObjectTypes: map<int, string> := map[
    2 := "OBJECT",
    4 := "BOOLEAN",
    5 := "CHAR",
    6 := "FLOAT",
    7 := "DOUBLE",
    8 := "BYTE",
    9 := "SHORT",
    10 := "INT",
    11 := "LONG"
  ]

  /** Primitive type name -> width in bytes. OBJECT has no entry: its width is the identifier size. */
  const TypeSizes: map<string, nat> := map[
    "BOOLEAN" := 1,
    "CHAR" := 2,
    "FLOAT" := 4,
    "DOUBLE" := 8,
    "BYTE" := 1,
    "SHORT" := 2,
    "INT" := 4,
    "LONG" := 8
  ]

  /** `TAGS.get(tag, 'UNKOWN')`, the source's spelling of the default kept. */
  function TagName(tag: int): string
  {
    if tag in Tags then Tags[tag] else "UNKOWN"
  }

  /** The basic types, one for each entry of ObjectTypes. The readers carry a type as one of
      these and TypeName gives the name the tables use for it. */
  datatype BasicType = Object | Boolean | Char | Float | Double | Byte | Short | Int | Long

  function TypeName(t: BasicType): string {
    match t
    case Object => "OBJECT"
    case Boolean => "BOOLEAN"
    case Char => "CHAR"
    case Float => "FLOAT"
    case Double => "DOUBLE"
    case Byte => "BYTE"
    case Short => "SHORT"
    case Int => "INT"
    case Long => "LONG"
  }

  /** The code ObjectTypes gives a type. */
  function Code(t: BasicType): (code: int)
    ensures code == 2 || 4 <= code <= 11
  {
    match t
    case Object => 2
    case Boolean => 4
    case Char => 5
    case Float => 6
    case Double => 7
    case Byte => 8
    case Short => 9
    case Int => 10
    case Long => 11
  }

  /** `OBJECT_TYPES[code]`: the type a code names, None for a code the table lacks. */
  function TypeOfCode(code: int): (r: Option<BasicType>)
    ensures r.Some? <==> code == 2 || 4 <= code <= 11
    ensures r.Some? ==> Code(r.value) == code
  {
    if code == 2 then Some(Object)
    else if code == 4 then Some(Boolean)
    else if code == 5 then Some(Char)
    else if code == 6 then Some(Float)
    else if code == 7 then Some(Double)
    else if code == 8 then Some(Byte)
    else if code == 9 then Some(Short)
    else if code == 10 then Some(Int)
    else if code == 11 then Some(Long)
    else None
  }

  /** `TYPE_SIZES[name]` for the name of a primitive type. */
  function PrimitiveWidth(t: BasicType): (w: nat)
    requires t != Object
    ensures w == 1 || w == 2 || w == 4 || w == 8
  {
    match t
    case Boolean => 1
    case Char => 2
    case Float => 4
    case Double => 8
    case Byte => 1
    case Short => 2
    case Int => 4
    case Long => 8
  }

  /** Code, TypeOfCode and PrimitiveWidth are OBJECT_TYPES and TYPE_SIZES, read as functions. */
  lemma TablesAgree(t: BasicType, code: int)
    ensures Code(t) in ObjectTypes && ObjectTypes[Code(t)] == TypeName(t)
    ensures TypeOfCode(code).Some? <==> code in ObjectTypes
    ensures TypeOfCode(code).Some? ==> ObjectTypes[code] == TypeName(TypeOfCode(code).value)
    ensures t != Object ==> TypeName(t) in TypeSizes && TypeSizes[TypeName(t)] == PrimitiveWidth(t)
  {
  }

  /** Each code names one type and each type has one code and one name. */
  lemma CodesRoundTrip(t: BasicType, u: BasicType)
    ensures TypeOfCode(Code(t)) == Some(t)
    ensures Code(t) == Code(u) <==> t == u
    ensures TypeName(t) == TypeName(u) <==> t == u
  {
  }

  /** TYPE_SIZES names exactly the primitive types, OBJECT is the one type it leaves out, and the
      widths are 1 for BOOLEAN/BYTE, 2 for CHAR/SHORT, 4 for FLOAT/INT, 8 for DOUBLE/LONG. */
  lemma TypeSizesCoverPrimitives(t: BasicType)
    ensures TypeName(t) in TypeSizes <==> t != Object
    ensures t != Object ==> (PrimitiveWidth(t) == 1 <==> t == Boolean || t == Byte)
    ensures t != Object ==> (PrimitiveWidth(t) == 2 <==> t == Char || t == Short)
    ensures t != Object ==> (PrimitiveWidth(t) == 4 <==> t == Float || t == Int)
    ensures t != Object ==> (PrimitiveWidth(t) == 8 <==> t == Double || t == Long)
  {
  }

  /** The type codes are exactly 2 and 4..11, each naming a different type. */
  lemma ObjectTypesInjective()
    ensures forall c :: c in ObjectTypes <==> c == 2 || 4 <= c <= 11
    ensures forall c, d :: c in ObjectTypes && d in ObjectTypes && ObjectTypes[c] == ObjectTypes[d] ==> c == d
  {
  }

  /** The sub-tags are exactly the 13 codes 0x01..0x08, 0x20..0x23 and 0xFF;
      HEAP_DUMP_END is not among the names. */
  lemma SubTagsCodes()
    ensures forall c :: c in HeapDumpSubTags <==> 0x01 <= c <= 0x08 || 0x20 <= c <= 0x23 || c == 0xFF
    ensures "HEAP_DUMP_END" !in HeapDumpSubTags.Values
  {
  }

  /** Different sub-tags have different names. */
  lemma SubTagsInjective()
    ensures forall c, d :: c in HeapDumpSubTags && d in HeapDumpSubTags && HeapDumpSubTags[c] == HeapDumpSubTags[d] ==> c == d
  {
  }

  /** Different record tags have different names; the four the reader acts on have their fixed codes. */
  lemma TagsInjective()
    ensures forall c, d :: c in Tags && d in Tags && Tags[c] == Tags[d] ==> c == d
    ensures Tags[0x01] == "STRING" && Tags[0x02] == "LOAD_CLASS"
    ensures Tags[0x0C] == "HEAP_DUMP" && Tags[0x1C] == "HEAP_DUMP_SEGMENT"
  {
  }

  /** The name HEAP_DUMP belongs to tag 0x0C alone, so a HEAP_DUMP_SEGMENT never reads as one;
      'UNKOWN' is exactly the name of the unmapped tags. */
  lemma TagNameHeapDump(tag: int)
    ensures TagName(tag) == "HEAP_DUMP" <==> tag == 0x0C
    ensures TagName(tag) == "STRING" <==> tag == 0x01
    ensures TagName(tag) == "LOAD_CLASS" <==> tag == 0x02
    ensures TagName(tag) == "UNKOWN" <==> tag !in Tags
  {
  }
}
