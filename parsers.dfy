/** The byte cursor of parsers.py: the file object, and the parser that reads big-endian integers,
    identifiers and typed values from it. BaseParser, HProfParser and HeapDumpParser share one
    class here; `counting` marks a HeapDumpParser, whose read and seek count bytes in `position`
    and check them against `length`. Every read is proved to do what its function in Decoding
    says, on the result and on the cursor, whether it succeeds or raises. */
module Parsers {
  import opened Wrappers
  import opened BigEndian
  import opened Decoding
  import opened Constants

  /** What `f.read(n)` returns for any n: a negative size reads to the end of the file. */
  function FileRead(data: seq<byte>, pos: nat, n: int): seq<byte> {
    if n < 0 then Span(data, pos, |data|) else Span(data, pos, n)
  }

  /** The file object: its bytes and the cursor into them. */
  class Stream {
    const data: seq<byte>
    var pos: nat

    constructor (data: seq<byte>)
      ensures this.data == data && pos == 0
    {
      this.data := data;
      pos := 0;
    }

    /** f.read(n): what is there of n bytes from the cursor, which moves past them. */
    method Read(n: int) returns (got: seq<byte>)
      modifies this`pos
      ensures got == FileRead(data, old(pos), n)
      ensures pos == old(pos) + |got|
      ensures n >= 0 ==> |got| <= n
    {
      got := FileRead(data, pos, n);
      pos := pos + |got|;
    }

    /** f.seek(n, os.SEEK_CUR): a relative move, which may pass the end of the file. */
    method Seek(n: nat)
      modifies this`pos
      ensures pos == old(pos) + n
    {
      pos := pos + n;
    }

    /** f.seek(p): an absolute move. */
    method SeekTo(p: nat)
      modifies this`pos
      ensures pos == p
    {
      pos := p;
    }
  }

  class Parser {
    const f: Stream
    /** true for a HeapDumpParser. */
    const counting: bool
    /** HeapDumpParser.length: the bound on position, or None. */
    const length: Option<nat>
    var idSize: nat
    /** HProfParser.format and start_time, set by read_header. */
    var format: seq<byte>
    var startTime: nat
    /** HeapDumpParser.position: the bytes read or skipped since construction. */
    var position: nat

    /** What this parser reads from, as the functions of Decoding see it. */
    function Sees(): Env
      reads this, f
    {
      Env(f.data, counting, length, idSize)
    }

    function At(): Cursor
      reads this, f
    {
      Cursor(f.pos, position)
    }

    /** BaseParser.__init__ over f, the start of an HProfParser. */
    constructor Plain(f: Stream)
      ensures this.f == f && !counting && length.None?
      ensures idSize == 0 && format == [] && startTime == 0 && position == 0
    {
      this.f := f;
      counting := false;
      length := None;
      idSize := 0;
      format := [];
      startTime := 0;
      position := 0;
    }

    /** HeapDumpParser.__init__: the id size set, position 0. */
    constructor HeapDump(f: Stream, idSize: nat, length: Option<nat>)
      ensures this.f == f && counting && this.length == length
      ensures this.idSize == idSize && position == 0
    {
      this.f := f;
      counting := true;
      this.length := length;
      this.idSize := idSize;
      format := [];
      startTime := 0;
      position := 0;
    }

    /** check_position_in_bound. */
    method CheckPositionInBound() returns (r: Result<()>)
      ensures r.Success? <==> length.None? || position <= length.value
      ensures r.Failure? ==> r.error == AssertionError
    {
      if length.None? || position <= length.value {
        r := Success(());
      } else {
        r := Failure(AssertionError);
      }
    }

    /** read(n), with HeapDumpParser's counting when counting. */
    method Read(n: nat) returns (r: Result<seq<byte>>)
      modifies f`pos, this`position
      ensures Outcome(r, At()) == ReadSpec(old(Sees()), old(At()), n)
    {
      var b := f.Read(n);
      if |b| != n {
        return Failure(EOFError);
      }
      if counting {
        position := position + n;
        var ok := CheckPositionInBound();
        if ok.Failure? {
          return Failure(ok.error);
        }
      }
      return Success(b);
    }

    /** seek(n), with HeapDumpParser's counting when counting. */
    method Seek(n: nat) returns (r: Result<()>)
      modifies f`pos, this`position
      ensures Outcome(r, At()) == SeekSpec(old(Sees()), old(At()), n)
    {
      f.Seek(n);
      r := Success(());
      if counting {
        position := position + n;
        r := CheckPositionInBound();
        assert r.Success? ==> r.value == ();
      }
    }

    method U1() returns (r: Result<seq<byte>>)
      modifies f`pos, this`position
      ensures Outcome(r, At()) == ReadSpec(old(Sees()), old(At()), 1)
    {
      r := Read(1);
    }

    method I1() returns (r: Result<nat>)
      modifies f`pos, this`position
      ensures Outcome(r, At()) == UIntSpec(old(Sees()), old(At()), 1)
    {
      var b := U1();
      if b.Failure? {
        return Failure(b.error);
      }
      assert FromBE(b.value) == b.value[0];
      r := Success(b.value[0]);
    }

    /** read_struct with a big-endian unsigned format of w bytes. */
    method ReadStruct(w: nat) returns (r: Result<nat>)
      modifies f`pos, this`position
      ensures Outcome(r, At()) == UIntSpec(old(Sees()), old(At()), w)
    {
      var b := Read(w);
      if b.Failure? {
        return Failure(b.error);
      }
      r := Success(FromBE(b.value));
    }

    method I2() returns (r: Result<nat>)
      modifies f`pos, this`position
      ensures Outcome(r, At()) == UIntSpec(old(Sees()), old(At()), 2)
    {
      r := ReadStruct(2);
    }

    method I4() returns (r: Result<nat>)
      modifies f`pos, this`position
      ensures Outcome(r, At()) == UIntSpec(old(Sees()), old(At()), 4)
    {
      r := ReadStruct(4);
    }

    method I8() returns (r: Result<nat>)
      modifies f`pos, this`position
      ensures Outcome(r, At()) == UIntSpec(old(Sees()), old(At()), 8)
    {
      r := ReadStruct(8);
    }

    /** set_id_size: read_id becomes i4 for an id size of 4 and i8 for any other. */
    method SetIdSize(k: nat)
      modifies this`idSize
      ensures idSize == k
    {
      idSize := k;
    }

    method ReadId() returns (r: Result<nat>)
      modifies f`pos, this`position
      ensures Outcome(r, At()) == IdSpec(old(Sees()), old(At()))
    {
      if idSize == 4 {
        r := I4();
      } else {
        r := I8();
      }
    }

    /** The run of read_id, i4 and i8 calls a record begins with, given by their widths: each
        read is read_struct at that width, as read_id is at IdWidth(idSize). */
    method ReadUInts(ws: seq<nat>) returns (r: Result<seq<nat>>)
      modifies f`pos, this`position
      ensures Outcome(r, At()) == UIntsSpec(old(Sees()), old(At()), ws)
      decreases |ws|
    {
      if ws == [] {
        return Success([]);
      }
      var n := ReadStruct(ws[0]);
      if n.Failure? {
        return Failure(n.error);
      }
      var rest := ReadUInts(ws[1..]);
      if rest.Failure? {
        return Failure(rest.error);
      }
      r := Success([n.value] + rest.value);
    }

    method ReadValueType() returns (r: Result<BasicType>)
      modifies f`pos, this`position
      ensures Outcome(r, At()) == ValueTypeSpec(old(Sees()), old(At()))
    {
      var code := I1();
      if code.Failure? {
        return Failure(code.error);
      }
      var t := TypeOfCode(code.value);
      if t.Some? {
        r := Success(t.value);
      } else {
        r := Failure(KeyError);
      }
    }

    method ReadBool() returns (r: Result<nat>)
      modifies f`pos, this`position
      ensures Outcome(r, At()) == UIntSpec(old(Sees()), old(At()), 1)
    {
      r := I1();
    }

    method ReadChar() returns (r: Result<nat>)
      modifies f`pos, this`position
      ensures Outcome(r, At()) == UIntSpec(old(Sees()), old(At()), 2)
    {
      r := I2();
    }

    /** read_float: four bytes in native order, kept as they are. */
    method ReadFloat() returns (r: Result<seq<byte>>)
      modifies f`pos, this`position
      ensures Outcome(r, At()) == ReadSpec(old(Sees()), old(At()), 4)
    {
      r := Read(4);
    }

    /** read_double: eight bytes in native order, kept as they are. */
    method ReadDouble() returns (r: Result<seq<byte>>)
      modifies f`pos, this`position
      ensures Outcome(r, At()) == ReadSpec(old(Sees()), old(At()), 8)
    {
      r := Read(8);
    }

    method ReadValue(tp: BasicType) returns (r: Result<Value>)
      modifies f`pos, this`position
      ensures Outcome(r, At()) == ValueSpec(old(Sees()), old(At()), tp)
    {
      var n: Result<nat>;
      match tp {
        case Object => n := ReadId();
        case Boolean => n := ReadBool();
        case Char => n := ReadChar();
        case Float =>
          var raw := ReadFloat();
          if raw.Failure? {
            return Failure(raw.error);
          }
          return Success(FloatBits(raw.value));
        case Double =>
          var raw := ReadDouble();
          if raw.Failure? {
            return Failure(raw.error);
          }
          return Success(FloatBits(raw.value));
        case Byte => n := I1();
        case Short => n := I2();
        case Int => n := I4();
        case Long => n := I8();
      }
      assert Outcome(n, At()) == UIntSpec(old(Sees()), old(At()), ValueWidth(idSize, tp));
      if n.Failure? {
        return Failure(n.error);
      }
      r := Success(IntValue(n.value));
    }

    /** read_header's loop: u1 until the first NUL byte, collecting the bytes before it. */
    method ReadFormat() returns (r: Result<seq<byte>>)
      modifies f`pos, this`position
      ensures Outcome(r, At()) == FormatSpec(old(Sees()), old(At()))
    {
      var e := Sees();
      var fmt: seq<byte> := [];
      PrependNothing(FormatSpec(e, At()));
      while true
        invariant Sees() == e
        invariant FormatSpec(e, old(At())) == Prepend(fmt, FormatSpec(e, At()))
        decreases |f.data| - f.pos
      {
        label Step:
        var b := I1();
        if b.Failure? {
          return Failure(b.error);
        }
        if b.value == 0 {
          break;
        }
        PrependFormatByte(e, old@Step(At()), fmt, b.value);
        fmt := fmt + [b.value as byte];
      }
      assert fmt + [] == fmt;
      r := Success(fmt);
    }

    /** read_header: bytes up to the first NUL become the format, then an i4 id size and an i8
        start time. Each field is set as soon as its part has been read. */
    method ReadHeader() returns (r: Result<()>)
      modifies f`pos, this`position, this`format, this`idSize, this`startTime
      ensures var o := HeaderSpec(old(Sees()), old(At()));
        && At() == o.after
        && (r.Success? <==> o.result.Success?)
        && (r.Failure? ==> r.error == o.result.error)
        && (o.result.Success? ==>
              format == o.result.value.format && idSize == o.result.value.idSize
              && startTime == o.result.value.startTime)
      ensures var fo := FormatSpec(old(Sees()), old(At()));
        format == if fo.result.Success? then fo.result.value else old(format)
      ensures var fo := FormatSpec(old(Sees()), old(At()));
        fo.result.Failure? || UIntSpec(old(Sees()), fo.after, 4).result.Failure? ==> idSize == old(idSize)
      ensures HeaderSpec(old(Sees()), old(At())).result.Failure? ==> startTime == old(startTime)
    {
      ghost var e := Sees();
      var fmt := ReadFormat();
      if fmt.Failure? {
        return Failure(fmt.error);
      }
      format := fmt.value;
      var ids := I4();
      if ids.Failure? {
        return Failure(ids.error);
      }
      SetIdSize(ids.value);
      UIntIgnoresIdSize(e, ids.value, At(), 8);
      var st := I8();
      if st.Failure? {
        return Failure(st.error);
      }
      startTime := st.value;
      r := Success(());
    }

    /** The entry half of goto(target): remember the cursor, then move to target when one is given. */
    method GotoEnter(target: Option<nat>) returns (saved: nat)
      modifies f`pos
      ensures saved == old(f.pos)
      ensures f.pos == if target.Some? then target.value else old(f.pos)
    {
      saved := f.pos;
      if target.Some? {
        f.SeekTo(target.value);
      }
    }

    /** The exit half of goto: back to the remembered cursor. Only a body that raised nothing
        gets here, since goto has no try/finally. */
    method GotoExit(saved: nat)
      modifies f`pos
      ensures f.pos == saved
    {
      f.SeekTo(saved);
    }
  }

  /** An unsigned read does not depend on the id size. */
  lemma UIntIgnoresIdSize(e: Env, k: nat, c: Cursor, w: nat)
    ensures UIntSpec(e.(idSize := k), c, w) == UIntSpec(e, c, w)
  {
  }

  /** One more non-NUL byte of the format moves from the scan still to come onto the collected part. */
  lemma PrependFormatByte(e: Env, c: Cursor, fmt: seq<byte>, b: nat)
    requires UIntSpec(e, c, 1).result == Success(b) && b != 0
    ensures b < 256
    ensures Prepend(fmt, FormatSpec(e, c)) == Prepend(fmt + [b as byte], FormatSpec(e, Advance(e, c, 1)))
  {
    UIntExact(e, c, 1, b, Advance(e, c, 1));
    assert Pow256(1) == 256;
    PrependTwice(fmt, [b as byte], FormatSpec(e, Advance(e, c, 1)));
  }

  /** HProfParser(f): a parser over f that has read the header. When the header cannot be read the
      constructor raises and no parser exists. */
  method OpenHProf(f: Stream) returns (r: Result<Parser>)
    modifies f`pos
    ensures var o := HeaderSpec(Env(f.data, false, None, 0), Cursor(old(f.pos), 0));
      && f.pos == o.after.pos
      && (r.Success? <==> o.result.Success?)
      && (r.Failure? ==> r.error == o.result.error)
      && (r.Success? ==>
            && fresh(r.value) && r.value.f == f && !r.value.counting && r.value.length.None?
            && r.value.position == o.after.position
            && r.value.format == o.result.value.format
            && r.value.idSize == o.result.value.idSize
            && r.value.startTime == o.result.value.startTime)
  {
    var p := new Parser.Plain(f);
    assert p.Sees() == Env(f.data, false, None, 0);
    var h := p.ReadHeader();
    if h.Failure? {
      return Failure(h.error);
    }
    r := Success(p);
  }
}
