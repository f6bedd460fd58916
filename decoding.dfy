/** The reading semantics under the parser classes of parsers.py, as pure functions: every read
    maps what a parser sees (an Env) and where it stands (a Cursor) to a result and the place it
    leaves the parser in, success or not. The Parser class runs these steps on its own state. */
module Decoding {
  import opened Wrappers
  import opened BigEndian
  import opened Constants

  /** What a parser reads from: the file's bytes, whether it counts what it consumes
      (HeapDumpParser) and against which bound, and the identifier size it was given. */
  datatype Env = Env(data: seq<byte>, counting: bool, length: Option<nat>, idSize: nat)

  /** Where a parser stands: the file cursor and HeapDumpParser.position. */
  datatype Cursor = Cursor(pos: nat, position: nat)

  /** A result together with the cursor it leaves behind, whether it succeeded or raised. */
  datatype Outcome<+T> = Outcome(result: Result<T>, after: Cursor) {
    predicate IsFailure() {
      result.Failure?
    }

    function PropagateFailure<U>(): Outcome<U>
      requires IsFailure()
    {
      Outcome(Failure(result.error), after)
    }

    function Extract(): (T, Cursor)
      requires !IsFailure()
    {
      (result.value, after)
    }
  }

  /** What `f.read(n)` returns at pos: n bytes, fewer at the end of the file, none past it. */
  function Span(data: seq<byte>, pos: nat, n: nat): (s: seq<byte>)
    ensures |s| <= n
    ensures |s| == n <==> n == 0 || pos + n <= |data|
    ensures pos + n <= |data| ==> s == data[pos..pos + n]
  {
    if pos + n <= |data| then data[pos..pos + n]
    else if pos < |data| then data[pos..]
    else []
  }

  /** The assertion of check_position_in_bound: no bound, or position within it. */
  predicate InBound(e: Env, position: nat) {
    e.length.None? || position <= e.length.value
  }

  /** The cursor after n bytes were read or skipped; only a counting parser raises position. */
  function Advance(e: Env, c: Cursor, n: nat): Cursor {
    Cursor(c.pos + n, if e.counting then c.position + n else c.position)
  }

  /** check_position_in_bound, run after position was raised. */
  function Checked<T>(e: Env, c: Cursor, v: T): Outcome<T> {
    if InBound(e, c.position) then Outcome(Success(v), c) else Outcome(Failure(AssertionError), c)
  }

  /** BaseParser.read(n); HeapDumpParser.read(n) when e.counting. A short read moves the cursor
      over what it got and raises EOFError before anything is counted. */
  function ReadSpec(e: Env, c: Cursor, n: nat): (o: Outcome<seq<byte>>)
    ensures o.after.pos == c.pos + |Span(e.data, c.pos, n)| && o.after.position >= c.position
    ensures o.result.Success? ==> |o.result.value| == n && o.after == Advance(e, c, n)
  {
    var got := Span(e.data, c.pos, n);
    if |got| != n then Outcome(Failure(EOFError), c.(pos := c.pos + |got|))
    else if !e.counting then Outcome(Success(got), Advance(e, c, n))
    else Checked(e, Advance(e, c, n), got)
  }

  /** BaseParser.seek(n): relative, and allowed past the end of the file; counted and checked
      when e.counting. */
  function SeekSpec(e: Env, c: Cursor, n: nat): (o: Outcome<()>)
    ensures o.after == Advance(e, c, n)
  {
    if !e.counting then Outcome(Success(()), Advance(e, c, n)) else Checked(e, Advance(e, c, n), ())
  }

  /** `ord(u1())` for w == 1, and read_struct with '>H', '>I', '>Q' for w == 2, 4, 8. */
  function UIntSpec(e: Env, c: Cursor, w: nat): (o: Outcome<nat>)
    ensures o.result.Success? ==> o.after == Advance(e, c, w)
    ensures o.after.pos >= c.pos && o.after.position >= c.position
  {
    var r :- ReadSpec(e, c, w);
    Outcome(Success(FromBE(r.0)), r.1)
  }

  /** The width read_id reads: i4 when the id size is 4, i8 for every other size. */
  function IdWidth(idSize: nat): nat {
    if idSize == 4 then 4 else 8
  }

  function IdSpec(e: Env, c: Cursor): (o: Outcome<nat>)
    ensures o.result.Success? ==> o.after == Advance(e, c, IdWidth(e.idSize))
    ensures o.after.pos >= c.pos && o.after.position >= c.position
  {
    UIntSpec(e, c, IdWidth(e.idSize))
  }

  /** Unsigned reads of the widths ws one after another, as a run of read_id, i1, i2, i4 and i8
      calls makes them, stopping at the first that raises. */
  function UIntsSpec(e: Env, c: Cursor, ws: seq<nat>): (o: Outcome<seq<nat>>)
    ensures o.result.Success? ==> |o.result.value| == |ws|
    ensures o.after.pos >= c.pos && o.after.position >= c.position
    decreases |ws|
  {
    if ws == [] then Outcome(Success([]), c)
    else
      var n :- UIntSpec(e, c, ws[0]);
      Prepend([n.0], UIntsSpec(e, n.1, ws[1..]))
  }

  /** Each number fits the width it is read at. */
  predicate Fit(ns: seq<nat>, ws: seq<nat>) {
    |ns| == |ws| && forall i :: 0 <= i < |ns| ==> ns[i] < Pow256(ws[i])
  }

  /** The numbers ns at the widths ws, one encoding after the other. */
  function EncodeUInts(ns: seq<nat>, ws: seq<nat>): seq<byte>
    requires |ns| == |ws|
  {
    if ns == [] then [] else ToBE(ns[0], ws[0]) + EncodeUInts(ns[1..], ws[1..])
  }

  /** What a run of reads returns, it read off the file as the encodings of fitting numbers. */
  lemma {:induction false} UIntsRead(e: Env, c: Cursor, ws: seq<nat>)
    requires ws != [] || WithinBound(e, c)
    ensures var o := UIntsSpec(e, c, ws);
      o.result.Success? ==> Fit(o.result.value, ws) && Consumed(e, c, o.after, EncodeUInts(o.result.value, ws))
    decreases |ws|
  {
    if ws != [] && UIntSpec(e, c, ws[0]).result.Success? {
      var o := UIntSpec(e, c, ws[0]);
      var n, c1 := o.result.value, o.after;
      UIntExact(e, c, ws[0], n, c1);
      UIntsRead(e, c1, ws[1..]);
      var rest := UIntsSpec(e, c1, ws[1..]);
      if rest.result.Success? {
        UIntsCons(n, rest.result.value, ws);
        ConsumedThen(e, c, c1, rest.after, ToBE(n, ws[0]), EncodeUInts(rest.result.value, ws[1..]));
      }
    }
  }

  /** A number in front of numbers fitting the later widths fits all of them when it fits the
      first, and its encoding goes in front. */
  lemma UIntsCons(n: nat, ns: seq<nat>, ws: seq<nat>)
    requires ws != [] && |ns| == |ws| - 1
    ensures Fit([n] + ns, ws) <==> n < Pow256(ws[0]) && Fit(ns, ws[1..])
    ensures EncodeUInts([n] + ns, ws) == ToBE(n, ws[0]) + EncodeUInts(ns, ws[1..])
  {
    var xs := [n] + ns;
    assert xs[0] == n && xs[1..] == ns;
    if n < Pow256(ws[0]) && Fit(ns, ws[1..]) {
      forall i | 0 <= i < |xs|
        ensures xs[i] < Pow256(ws[i])
      {
        if i > 0 {
          assert xs[i] == ns[i - 1] && ws[i] == ws[1..][i - 1];
        }
      }
    }
    if Fit(xs, ws) {
      forall i | 0 <= i < |ns|
        ensures ns[i] < Pow256(ws[1..][i])
      {
        assert xs[i + 1] == ns[i] && ws[i + 1] == ws[1..][i];
      }
    }
  }

  /** The encodings of fitting numbers read back as those numbers. */
  lemma {:induction false} UIntsParse(e: Env, c: Cursor, ws: seq<nat>, ns: seq<nat>, c2: Cursor)
    requires Fit(ns, ws) && Consumed(e, c, c2, EncodeUInts(ns, ws))
    ensures UIntsSpec(e, c, ws) == Outcome(Success(ns), c2)
    decreases |ws|
  {
    if ws != [] {
      var c1 := Advance(e, c, ws[0]);
      ConsumedSplit(e, c, c2, ToBE(ns[0], ws[0]), EncodeUInts(ns[1..], ws[1..]));
      assert [ns[0]] + ns[1..] == ns;
      UIntsCons(ns[0], ns[1..], ws);
      UIntExact(e, c, ws[0], ns[0], c1);
      UIntsParse(e, c1, ws[1..], ns[1..], c2);
    }
  }

  /** A run of reads succeeds with ns exactly on the encodings of fitting numbers. */
  lemma UIntsExact(e: Env, c: Cursor, ws: seq<nat>, ns: seq<nat>, c2: Cursor)
    requires ws != [] || WithinBound(e, c)
    ensures UIntsSpec(e, c, ws) == Outcome(Success(ns), c2) <==> Fit(ns, ws) && Consumed(e, c, c2, EncodeUInts(ns, ws))
  {
    UIntsRead(e, c, ws);
    if Fit(ns, ws) && Consumed(e, c, c2, EncodeUInts(ns, ws)) {
      UIntsParse(e, c, ws, ns, c2);
    }
  }

  /** read_value_type: one code byte, looked up in OBJECT_TYPES (KeyError when unmapped). */
  function ValueTypeSpec(e: Env, c: Cursor): (o: Outcome<BasicType>)
    ensures o.result.Success? ==> o.after == Advance(e, c, 1)
    ensures o.after.pos >= c.pos && o.after.position >= c.position
  {
    var code :- UIntSpec(e, c, 1);
    match TypeOfCode(code.0)
    case Some(t) => Outcome(Success(t), code.1)
    case None => Outcome(Failure(KeyError), code.1)
  }

  /** A value read_value returns: an integer, or the raw bytes of a native-order float or double. */
  datatype Value = IntValue(n: nat) | FloatBits(raw: seq<byte>)

  function IntOf(o: Outcome<nat>): Outcome<Value> {
    var n :- o;
    Outcome(Success(IntValue(n.0)), n.1)
  }

  function RawOf(o: Outcome<seq<byte>>): Outcome<Value> {
    var b :- o;
    Outcome(Success(FloatBits(b.0)), b.1)
  }

  /** read_value(tp): a float or a double as its raw bytes, every other type as a big-endian
      unsigned integer of its width (read_id's width for OBJECT). */
  function ValueSpec(e: Env, c: Cursor, tp: BasicType): (o: Outcome<Value>)
    ensures o.after.pos >= c.pos && o.after.position >= c.position
  {
    if Floating(tp) then RawOf(ReadSpec(e, c, ValueWidth(e.idSize, tp)))
    else IntOf(UIntSpec(e, c, ValueWidth(e.idSize, tp)))
  }

  /** The two types read_value returns as raw bytes rather than as an integer. */
  predicate Floating(tp: BasicType) {
    tp == Float || tp == Double
  }

  /** type_size(tp): the id size for OBJECT, TYPE_SIZES otherwise. */
  function TypeSize(idSize: nat, tp: BasicType): nat {
    if tp == Object then idSize else PrimitiveWidth(tp)
  }

  /** type_size agrees with TYPE_SIZES on every name the table holds, and OBJECT takes the id size. */
  lemma TypeSizeTable(idSize: nat, tp: BasicType)
    ensures tp == Object ==> TypeSize(idSize, tp) == idSize
    ensures tp != Object ==> TypeName(tp) in TypeSizes && TypeSize(idSize, tp) == TypeSizes[TypeName(tp)]
  {
    TablesAgree(tp, 0);
  }

  /** The number of bytes read_value(tp) reads. */
  function ValueWidth(idSize: nat, tp: BasicType): nat {
    if tp == Object then IdWidth(idSize) else PrimitiveWidth(tp)
  }

  /** The values read_value can return for tp. */
  predicate ValidValue(idSize: nat, tp: BasicType, v: Value) {
    if Floating(tp) then v.FloatBits? && |v.raw| == ValueWidth(idSize, tp)
    else v.IntValue? && v.n < Pow256(ValueWidth(idSize, tp))
  }

  /** The bytes that read_value(tp) decodes to v. */
  function EncodeValue(idSize: nat, tp: BasicType, v: Value): seq<byte> {
    match v
    case IntValue(n) => ToBE(n, ValueWidth(idSize, tp))
    case FloatBits(raw) => raw
  }

  /** xs put in front of the items an outcome collects: what a loop that has gathered xs so far
      will return once the rest of its reads are done. */
  function Prepend<T>(xs: seq<T>, o: Outcome<seq<T>>): Outcome<seq<T>> {
    if o.result.Success? then Outcome(Success(xs + o.result.value), o.after) else o
  }

  lemma PrependNothing<T>(o: Outcome<seq<T>>)
    ensures Prepend([], o) == o
  {
    if o.result.Success? {
      assert [] + o.result.value == o.result.value;
    }
  }

  lemma PrependTwice<T>(xs: seq<T>, ys: seq<T>, o: Outcome<seq<T>>)
    ensures Prepend(xs, Prepend(ys, o)) == Prepend(xs + ys, o)
  {
    if o.result.Success? {
      assert xs + (ys + o.result.value) == xs + ys + o.result.value;
    }
  }

  /** Reading from c to c2 took exactly bs off the file, and the bound still held. */
  predicate Consumed(e: Env, c: Cursor, c2: Cursor, bs: seq<byte>) {
    && c2 == Advance(e, c, |bs|)
    && (bs == [] || (c.pos + |bs| <= |e.data| && e.data[c.pos..c.pos + |bs|] == bs))
    && (e.counting ==> InBound(e, c2.position))
  }

  /** Two consecutive consumptions are one consumption of the concatenation. */
  lemma ConsumedThen(e: Env, c: Cursor, c1: Cursor, c2: Cursor, x: seq<byte>, y: seq<byte>)
    requires Consumed(e, c, c1, x) && Consumed(e, c1, c2, y)
    ensures Consumed(e, c, c2, x + y)
  {
    if x != [] && y != [] {
      SliceSplit(e.data, c.pos, c1.pos, c2.pos);
    } else if x == [] {
      assert x + y == y;
    } else {
      assert x + y == x;
    }
  }

  /** A consumption of a concatenation splits at the boundary. */
  lemma ConsumedSplit(e: Env, c: Cursor, c2: Cursor, x: seq<byte>, y: seq<byte>)
    requires Consumed(e, c, c2, x + y)
    ensures Consumed(e, c, Advance(e, c, |x|), x) && Consumed(e, Advance(e, c, |x|), c2, y)
  {
    var c1 := Advance(e, c, |x|);
    if x != [] && y != [] {
      SliceSplit(e.data, c.pos, c1.pos, c2.pos);
      assert e.data[c.pos..c1.pos] == (x + y)[..|x|] == x;
      assert e.data[c1.pos..c2.pos] == (x + y)[|x|..] == y;
    } else if x == [] {
      assert x + y == y;
    } else {
      assert x + y == x;
    }
  }

  /** read(n) succeeds exactly on n bytes that are there and within the bound; it raises
      EOFError when fewer than n bytes remain, and AssertionError when the bytes are there but
      counting them breaks the bound. */
  lemma ReadExact(e: Env, c: Cursor, n: nat, bs: seq<byte>, c2: Cursor)
    ensures ReadSpec(e, c, n) == Outcome(Success(bs), c2) <==> |bs| == n && Consumed(e, c, c2, bs)
    ensures ReadSpec(e, c, n).result == Failure(EOFError) <==> n > 0 && c.pos + n > |e.data|
    ensures ReadSpec(e, c, n).result == Failure(AssertionError)
        <==> (n == 0 || c.pos + n <= |e.data|) && e.counting && !InBound(e, c.position + n)
  {
    if |bs| == n && Consumed(e, c, c2, bs) && n == 0 {
      assert Span(e.data, c.pos, n) == bs;
    }
  }

  /** A read of w > 0 bytes succeeds exactly when the bytes are in the file and, for a counting
      parser, the bound still holds after them. */
  lemma UIntSucceeds(e: Env, c: Cursor, w: nat)
    requires w > 0
    ensures UIntSpec(e, c, w).result.Success?
        <==> c.pos + w <= |e.data| && (e.counting ==> InBound(e, c.position + w))
  {
    ReadExact(e, c, w, [], c);
  }

  /** An unsigned read of w bytes succeeds with v exactly on v's big-endian encoding. */
  lemma UIntExact(e: Env, c: Cursor, w: nat, v: nat, c2: Cursor)
    ensures UIntSpec(e, c, w) == Outcome(Success(v), c2) <==> v < Pow256(w) && Consumed(e, c, c2, ToBE(v, w))
  {
    var r := ReadSpec(e, c, w);
    if UIntSpec(e, c, w) == Outcome(Success(v), c2) {
      ReadExact(e, c, w, r.result.value, r.after);
      ToFromBE(r.result.value);
    }
    if v < Pow256(w) && Consumed(e, c, c2, ToBE(v, w)) {
      ReadExact(e, c, w, ToBE(v, w), c2);
      FromToBE(v, w);
    }
  }

  /** A successful unsigned read right after a consumption extends it by the number's encoding. */
  lemma UIntAppend(e: Env, c: Cursor, prefix: seq<byte>, c1: Cursor, w: nat, n: nat, c2: Cursor)
    requires Consumed(e, c, c1, prefix) && UIntSpec(e, c1, w) == Outcome(Success(n), c2)
    ensures n < Pow256(w) && Consumed(e, c, c2, prefix + ToBE(n, w))
  {
    UIntExact(e, c1, w, n, c2);
    ConsumedThen(e, c, c1, c2, prefix, ToBE(n, w));
  }

  /** A consumption ending in a number's encoding ends in a read of that number. */
  lemma UIntUnappend(e: Env, c: Cursor, prefix: seq<byte>, w: nat, n: nat, c2: Cursor)
    requires n < Pow256(w) && Consumed(e, c, c2, prefix + ToBE(n, w))
    ensures Consumed(e, c, Advance(e, c, |prefix|), prefix)
    ensures UIntSpec(e, Advance(e, c, |prefix|), w) == Outcome(Success(n), c2)
  {
    ConsumedSplit(e, c, c2, prefix, ToBE(n, w));
    UIntExact(e, Advance(e, c, |prefix|), w, n, c2);
  }

  /** read_id reads 4 bytes when the id size is 4 and 8 bytes for any other id size. */
  lemma IdExact(e: Env, c: Cursor, v: nat, c2: Cursor)
    ensures IdSpec(e, c) == Outcome(Success(v), c2)
        <==> v < Pow256(IdWidth(e.idSize)) && Consumed(e, c, c2, ToBE(v, IdWidth(e.idSize)))
    ensures IdWidth(e.idSize) == 4 <==> e.idSize == 4
    ensures IdWidth(e.idSize) == 8 <==> e.idSize != 4
  {
    UIntExact(e, c, IdWidth(e.idSize), v, c2);
  }

  /** i2, i4 and i8 return numbers below 2^16, 2^32 and 2^64. */
  lemma UIntBounds(e: Env, c: Cursor)
    ensures UIntSpec(e, c, 2).result.Success? ==> UIntSpec(e, c, 2).result.value < 0x1_0000
    ensures UIntSpec(e, c, 4).result.Success? ==> UIntSpec(e, c, 4).result.value < 0x1_0000_0000
    ensures UIntSpec(e, c, 8).result.Success? ==> UIntSpec(e, c, 8).result.value < 0x1_0000_0000_0000_0000
  {
    assert Pow256(2) == 0x1_0000;
    assert Pow256(4) == 0x1_0000_0000;
    assert Pow256(8) == 0x1_0000_0000_0000_0000;
  }

  /** read_value_type succeeds with tp exactly on tp's code byte. */
  lemma ValueTypeExact(e: Env, c: Cursor, tp: BasicType, c2: Cursor)
    ensures ValueTypeSpec(e, c) == Outcome(Success(tp), c2) <==> Consumed(e, c, c2, [Code(tp) as byte])
  {
    var code := Code(tp);
    CodesRoundTrip(tp, tp);
    ToBEByte(code);
    UIntExact(e, c, 1, code, c2);
    var o := UIntSpec(e, c, 1);
    if ValueTypeSpec(e, c) == Outcome(Success(tp), c2) {
      var k := o.result.value;
      assert TypeOfCode(k) == Some(tp);
      assert k == code;
    }
  }

  /** read_value reads type_size(tp) bytes for every primitive type; for OBJECT it reads the
      identifier width, which is type_size's id size only when that size is 4 or 8. */
  lemma ValueWidthIsTypeSize(idSize: nat, tp: BasicType)
    ensures ValueWidth(idSize, tp) == TypeSize(idSize, tp) <==> tp != Object || idSize == 4 || idSize == 8
  {
  }

  /** read_value(tp) succeeds with v exactly on v's encoding. */
  lemma ValueExact(e: Env, c: Cursor, tp: BasicType, v: Value, c2: Cursor)
    ensures ValueSpec(e, c, tp) == Outcome(Success(v), c2)
        <==> ValidValue(e.idSize, tp, v) && Consumed(e, c, c2, EncodeValue(e.idSize, tp, v))
  {
    var w := ValueWidth(e.idSize, tp);
    if Floating(tp) {
      var r := ReadSpec(e, c, w);
      if v.FloatBits? {
        ReadExact(e, c, w, v.raw, c2);
      }
      if r.result.Success? {
        ReadExact(e, c, w, r.result.value, r.after);
      }
    } else {
      var o := UIntSpec(e, c, w);
      assert ValueSpec(e, c, tp) == IntOf(o);
      if v.IntValue? {
        UIntExact(e, c, w, v.n, c2);
      }
    }
  }

  // ---------------------------------------------------------------------------------------
  // Reads repeated n times

  /** The parser has not run past its bound: what every successful read leaves behind. */
  predicate WithinBound(e: Env, c: Cursor) {
    e.counting ==> InBound(e, c.position)
  }

  /** `[read(p) for _ in xrange(n)]` for a reader f given as a function of the cursor: n reads in
      a row, stopping at the first that raises and leaving the cursor where that one left it. */
  function Repeat<T>(f: Cursor -> Outcome<T>, c: Cursor, n: nat): Outcome<seq<T>>
    decreases n
  {
    if n == 0 then Outcome(Success([]), c)
    else
      var x :- f(c);
      var rest :- Repeat(f, x.1, n - 1);
      Outcome(Success([x.0] + rest.0), rest.1)
  }

  /** The encodings of xs, one after the other. */
  function Concat<T>(enc: T -> seq<byte>, xs: seq<T>): seq<byte> {
    if xs == [] then [] else enc(xs[0]) + Concat(enc, xs[1..])
  }

  predicate AllValid<T>(valid: T -> bool, xs: seq<T>) {
    forall i :: 0 <= i < |xs| ==> valid(xs[i])
  }

  /** A reader never moves the cursor back. */
  ghost predicate Advances<T>(f: Cursor -> Outcome<T>) {
    forall c :: f(c).after.pos >= c.pos && f(c).after.position >= c.position
  }

  /** What f reads, it read off the file as the encoding of a valid value. */
  ghost predicate ReadsEncoded<T>(e: Env, f: Cursor -> Outcome<T>, valid: T -> bool, enc: T -> seq<byte>) {
    forall c :: f(c).result.Success? ==>
      valid(f(c).result.value) && Consumed(e, c, f(c).after, enc(f(c).result.value))
  }

  /** The encoding of a valid value reads back as that value. */
  ghost predicate ParsesEncoded<T(!new)>(e: Env, f: Cursor -> Outcome<T>, valid: T -> bool, enc: T -> seq<byte>) {
    forall c, x, c2 :: valid(x) && Consumed(e, c, c2, enc(x)) ==> f(c) == Outcome(Success(x), c2)
  }

  /** Repeated reads never move the cursor back either. */
  lemma {:induction false} RepeatAdvances<T>(f: Cursor -> Outcome<T>, c: Cursor, n: nat)
    requires Advances(f)
    ensures Repeat(f, c, n).after.pos >= c.pos && Repeat(f, c, n).after.position >= c.position
    decreases n
  {
    if n > 0 && f(c).result.Success? {
      RepeatAdvances(f, f(c).after, n - 1);
    }
  }

  /** One more read moves from the reads still to come onto the values collected. */
  lemma RepeatUnfold<T>(f: Cursor -> Outcome<T>, c: Cursor, n: nat, acc: seq<T>)
    requires n > 0
    ensures f(c).result.Success? ==>
      Prepend(acc, Repeat(f, c, n)) == Prepend(acc + [f(c).result.value], Repeat(f, f(c).after, n - 1))
    ensures f(c).result.Failure? ==> Repeat(f, c, n) == Outcome(Failure(f(c).result.error), f(c).after)
  {
    if f(c).result.Success? {
      var rest := Repeat(f, f(c).after, n - 1);
      assert Repeat(f, c, n) == Prepend([f(c).result.value], rest);
      PrependTwice(acc, [f(c).result.value], rest);
    }
  }

  lemma AllValidCons<T>(valid: T -> bool, xs: seq<T>)
    requires xs != []
    ensures AllValid(valid, xs) <==> valid(xs[0]) && AllValid(valid, xs[1..])
  {
    if valid(xs[0]) && AllValid(valid, xs[1..]) {
      forall i | 0 <= i < |xs|
        ensures valid(xs[i])
      {
        if i > 0 {
          assert xs[i] == xs[1..][i - 1];
        }
      }
    }
  }

  lemma {:induction false} ConcatSnoc<T>(enc: T -> seq<byte>, xs: seq<T>, x: T)
    ensures Concat(enc, xs + [x]) == Concat(enc, xs) + enc(x)
    decreases |xs|
  {
    if xs == [] {
      assert [] + [x] == [x];
      assert Concat(enc, [x]) == enc(x) + Concat(enc, []);
    } else {
      assert (xs + [x])[1..] == xs[1..] + [x];
      ConcatSnoc(enc, xs[1..], x);
    }
  }

  /** What n reads from within the bound return, they read off the file as its encodings. */
  lemma {:induction false} RepeatRead<T>(e: Env, f: Cursor -> Outcome<T>, valid: T -> bool, enc: T -> seq<byte>,
                                         c: Cursor, n: nat)
    requires ReadsEncoded(e, f, valid, enc) && WithinBound(e, c)
    ensures var o := Repeat(f, c, n);
      o.result.Success? ==>
        |o.result.value| == n && AllValid(valid, o.result.value) && Consumed(e, c, o.after, Concat(enc, o.result.value))
    decreases n
  {
    if n > 0 && f(c).result.Success? {
      var x, c1 := f(c).result.value, f(c).after;
      RepeatRead(e, f, valid, enc, c1, n - 1);
      var rest := Repeat(f, c1, n - 1);
      if rest.result.Success? {
        var xs := [x] + rest.result.value;
        assert xs[0] == x && xs[1..] == rest.result.value;
        AllValidCons(valid, xs);
        ConsumedThen(e, c, c1, rest.after, enc(x), Concat(enc, rest.result.value));
      }
    }
  }

  /** The encodings of xs read back as xs. */
  lemma {:induction false} RepeatParse<T(!new)>(e: Env, f: Cursor -> Outcome<T>, valid: T -> bool, enc: T -> seq<byte>,
                                          c: Cursor, xs: seq<T>, c2: Cursor)
    requires ParsesEncoded(e, f, valid, enc)
    requires AllValid(valid, xs) && Consumed(e, c, c2, Concat(enc, xs))
    ensures Repeat(f, c, |xs|) == Outcome(Success(xs), c2)
    decreases |xs|
  {
    if xs != [] {
      var c1 := Advance(e, c, |enc(xs[0])|);
      AllValidCons(valid, xs);
      ConsumedSplit(e, c, c2, enc(xs[0]), Concat(enc, xs[1..]));
      assert f(c) == Outcome(Success(xs[0]), c1);
      RepeatParse(e, f, valid, enc, c1, xs[1..], c2);
      assert [xs[0]] + xs[1..] == xs;
    }
  }

  /** n reads from within the bound succeed with xs exactly on the encodings of n valid values. */
  lemma RepeatExact<T(!new)>(e: Env, f: Cursor -> Outcome<T>, valid: T -> bool, enc: T -> seq<byte>,
                       c: Cursor, n: nat, xs: seq<T>, c2: Cursor)
    requires ReadsEncoded(e, f, valid, enc) && ParsesEncoded(e, f, valid, enc) && WithinBound(e, c)
    ensures Repeat(f, c, n) == Outcome(Success(xs), c2)
        <==> |xs| == n && AllValid(valid, xs) && Consumed(e, c, c2, Concat(enc, xs))
  {
    RepeatRead(e, f, valid, enc, c, n);
    if |xs| == n && AllValid(valid, xs) && Consumed(e, c, c2, Concat(enc, xs)) {
      RepeatParse(e, f, valid, enc, c, xs, c2);
    }
  }

  /** Values read off the file from c0 up to c, followed by one more read from c, were read off
      the file from c0. */
  lemma RepeatSnoc<T>(e: Env, f: Cursor -> Outcome<T>, valid: T -> bool, enc: T -> seq<byte>,
                      c0: Cursor, xs: seq<T>, c: Cursor, x: T, c2: Cursor)
    requires ReadsEncoded(e, f, valid, enc)
    requires AllValid(valid, xs)
    requires xs == [] ==> c == c0
    requires xs != [] ==> Consumed(e, c0, c, Concat(enc, xs))
    requires f(c) == Outcome(Success(x), c2)
    ensures AllValid(valid, xs + [x]) && Consumed(e, c0, c2, Concat(enc, xs + [x]))
  {
    assert valid(x) && Consumed(e, c, c2, enc(x));
    ConcatSnoc(enc, xs, x);
    if xs == [] {
      assert Concat(enc, []) == [];
      assert [] + enc(x) == enc(x);
    } else {
      ConsumedThen(e, c0, c, c2, Concat(enc, xs), enc(x));
    }
    assert forall i | 0 <= i < |xs| :: (xs + [x])[i] == xs[i];
  }

  /** When the read after the values already read off the file (from c up to c1) raises, n > |xs|
      reads raise the same, leaving the cursor where that read left it. */
  lemma {:induction false} RepeatRaise<T(!new)>(e: Env, f: Cursor -> Outcome<T>, valid: T -> bool, enc: T -> seq<byte>,
                                                c: Cursor, xs: seq<T>, c1: Cursor, n: nat, err: Error, c2: Cursor)
    requires ParsesEncoded(e, f, valid, enc)
    requires AllValid(valid, xs) && |xs| < n
    requires xs == [] ==> c1 == c
    requires xs != [] ==> Consumed(e, c, c1, Concat(enc, xs))
    requires f(c1) == Outcome(Failure(err), c2)
    ensures Repeat(f, c, n) == Outcome(Failure(err), c2)
    decreases |xs|
  {
    if xs != [] {
      var mid := Advance(e, c, |enc(xs[0])|);
      AllValidCons(valid, xs);
      ConsumedSplit(e, c, c1, enc(xs[0]), Concat(enc, xs[1..]));
      assert f(c) == Outcome(Success(xs[0]), mid);
      RepeatRaise(e, f, valid, enc, mid, xs[1..], c1, n - 1, err, c2);
    }
  }

  /** The header of an HPROF file: the format name, the identifier size and the start time. */
  datatype Header = Header(format: seq<byte>, idSize: nat, startTime: nat)

  /** read_header's loop: u1 until the first NUL, collecting the bytes before it. */
  function FormatSpec(e: Env, c: Cursor): Outcome<seq<byte>>
    decreases |e.data| - c.pos
  {
    var b :- UIntSpec(e, c, 1);
    if b.0 == 0 then Outcome(Success([]), b.1)
    else
      var rest :- FormatSpec(e, b.1);
      Outcome(Success([b.0 as byte] + rest.0), rest.1)
  }

  /** read_header: the format name, then an i4 identifier size and an i8 start time. */
  function HeaderSpec(e: Env, c: Cursor): Outcome<Header> {
    var fmt :- FormatSpec(e, c);
    var ids :- UIntSpec(e, fmt.1, 4);
    var st :- UIntSpec(e, ids.1, 8);
    Outcome(Success(Header(fmt.0, ids.0, st.0)), st.1)
  }

  predicate ValidHeader(h: Header) {
    0 !in h.format && h.idSize < Pow256(4) && h.startTime < Pow256(8)
  }

  function EncodeHeader(h: Header): seq<byte> {
    h.format + [0] + ToBE(h.idSize, 4) + ToBE(h.startTime, 8)
  }

  /** What the format scan returns, it read off the file as NUL-free bytes and their NUL. */
  lemma {:induction false} FormatRead(e: Env, c: Cursor)
    ensures var o := FormatSpec(e, c);
      o.result.Success? ==> 0 !in o.result.value && Consumed(e, c, o.after, o.result.value + [0])
    decreases |e.data| - c.pos
  {
    var o := UIntSpec(e, c, 1);
    if o.result.Success? {
      var b, c1 := o.result.value, o.after;
      UIntExact(e, c, 1, b, c1);
      ToBEByte(b);
      if b != 0 {
        FormatRead(e, c1);
        var rest := FormatSpec(e, c1);
        if rest.result.Success? {
          assert [b as byte] + rest.result.value + [0] == [b as byte] + (rest.result.value + [0]);
          ConsumedThen(e, c, c1, rest.after, [b as byte], rest.result.value + [0]);
        }
      }
    }
  }

  /** NUL-free bytes and their NUL read back as those bytes. */
  lemma {:induction false} FormatParse(e: Env, c: Cursor, fmt: seq<byte>, c2: Cursor)
    requires 0 !in fmt && Consumed(e, c, c2, fmt + [0])
    ensures FormatSpec(e, c) == Outcome(Success(fmt), c2)
    decreases |fmt|
  {
    var h := fmt + [0];
    var c1 := Advance(e, c, 1);
    NulTerminated(fmt);
    ConsumedSplit(e, c, c2, [h[0]], h[1..]);
    ToBEByte(h[0]);
    UIntExact(e, c, 1, h[0] as int, c1);
    if fmt != [] {
      FormatParse(e, c1, fmt[1..], c2);
    }
  }

  /** The first byte of fmt + [0] and the rest, which is fmt's rest and the NUL. */
  lemma NulTerminated(fmt: seq<byte>)
    ensures fmt + [0] == [(fmt + [0])[0]] + (fmt + [0])[1..]
    ensures fmt != [] ==> (fmt + [0])[1..] == fmt[1..] + [0] && [fmt[0]] + fmt[1..] == fmt
  {
  }

  /** The format scan succeeds with fmt exactly on fmt's bytes followed by a NUL. */
  lemma FormatExact(e: Env, c: Cursor, fmt: seq<byte>, c2: Cursor)
    ensures FormatSpec(e, c) == Outcome(Success(fmt), c2) <==> 0 !in fmt && Consumed(e, c, c2, fmt + [0])
  {
    FormatRead(e, c);
    if 0 !in fmt && Consumed(e, c, c2, fmt + [0]) {
      FormatParse(e, c, fmt, c2);
    }
  }

  /** read_header succeeds with h exactly on h's encoding, so it consumes len(format) + 13 bytes. */
  lemma HeaderExact(e: Env, c: Cursor, h: Header, c2: Cursor)
    ensures HeaderSpec(e, c) == Outcome(Success(h), c2) <==> ValidHeader(h) && Consumed(e, c, c2, EncodeHeader(h))
    ensures |EncodeHeader(h)| == |h.format| + 13
  {
    if HeaderSpec(e, c) == Outcome(Success(h), c2) {
      HeaderRead(e, c, h, c2);
    }
    if ValidHeader(h) && Consumed(e, c, c2, EncodeHeader(h)) {
      HeaderParse(e, c, h, c2);
    }
  }

  lemma HeaderRead(e: Env, c: Cursor, h: Header, c2: Cursor)
    requires HeaderSpec(e, c) == Outcome(Success(h), c2)
    ensures ValidHeader(h) && Consumed(e, c, c2, EncodeHeader(h))
  {
    var x := h.format + [0];
    var y := ToBE(h.idSize, 4);
    var z := ToBE(h.startTime, 8);
    var c1 := Advance(e, c, |x|);
    var c1b := Advance(e, c1, 4);
    FormatRead(e, c);
    UIntExact(e, c1, 4, h.idSize, c1b);
    UIntExact(e, c1b, 8, h.startTime, c2);
    ConsumedThen(e, c, c1, c1b, x, y);
    ConsumedThen(e, c, c1b, c2, x + y, z);
  }

  lemma HeaderParse(e: Env, c: Cursor, h: Header, c2: Cursor)
    requires ValidHeader(h) && Consumed(e, c, c2, EncodeHeader(h))
    ensures HeaderSpec(e, c) == Outcome(Success(h), c2)
  {
    var x := h.format + [0];
    var y := ToBE(h.idSize, 4);
    var z := ToBE(h.startTime, 8);
    var c1 := Advance(e, c, |x|);
    var c1b := Advance(e, c1, 4);
    ConsumedSplit(e, c, c2, x + y, z);
    ConsumedSplit(e, c, c1b, x, y);
    FormatParse(e, c, h.format, c1);
    UIntExact(e, c1, 4, h.idSize, c1b);
    UIntExact(e, c1b, 8, h.startTime, c2);
  }
}
