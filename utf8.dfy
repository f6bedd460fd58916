/** UTF-8 as RFC 3629 defines it: the decoding a STRING record's contents go through
    (`contents.decode('utf-8')`), and the encoding that inverts it. */
module Utf8 {
  import opened Wrappers
  import opened BigEndian

  predicate IsContinuation(b: byte) {
    0x80 <= b <= 0xBF
  }

  /** The length of the well-formed UTF-8 sequence at the front of bs, or 0 when there is none. */
  function LeadLength(bs: seq<byte>): (n: nat)
    ensures n <= 4 && n <= |bs|
    ensures n == 0 <==> bs == [] || !WellFormedLead(bs)
  {
    if bs == [] then 0
    else if bs[0] < 0x80 then 1
    else if 0xC2 <= bs[0] <= 0xDF then
      if |bs| >= 2 && IsContinuation(bs[1]) then 2 else 0
    else if 0xE0 <= bs[0] <= 0xEF then
      if |bs| >= 3 && SecondInRange(bs[0], bs[1]) && IsContinuation(bs[2]) then 3 else 0
    else if 0xF0 <= bs[0] <= 0xF4 then
      if |bs| >= 4 && SecondInRange(bs[0], bs[1]) && IsContinuation(bs[2]) && IsContinuation(bs[3]) then 4 else 0
    else 0
  }

  /** The second byte's range, narrowed after E0, ED, F0 and F4 so that overlong forms,
      surrogates and code points above U+10FFFF are rejected. */
  predicate SecondInRange(lead: byte, b: byte) {
    if lead == 0xE0 then 0xA0 <= b <= 0xBF
    else if lead == 0xED then 0x80 <= b <= 0x9F
    else if lead == 0xF0 then 0x90 <= b <= 0xBF
    else if lead == 0xF4 then 0x80 <= b <= 0x8F
    else IsContinuation(b)
  }

  predicate WellFormedLead(bs: seq<byte>)
    requires bs != []
  {
    || bs[0] < 0x80
    || (0xC2 <= bs[0] <= 0xDF && |bs| >= 2 && IsContinuation(bs[1]))
    || (0xE0 <= bs[0] <= 0xEF && |bs| >= 3 && SecondInRange(bs[0], bs[1]) && IsContinuation(bs[2]))
    || (0xF0 <= bs[0] <= 0xF4 && |bs| >= 4 && SecondInRange(bs[0], bs[1])
        && IsContinuation(bs[2]) && IsContinuation(bs[3]))
  }

  predicate IsScalar(cp: int) {
    0 <= cp < 0xD800 || 0xE000 <= cp <= 0x10FFFF
  }

  /** The code point of the well-formed sequence at the front of bs. */
  function LeadCodePoint(bs: seq<byte>): (cp: int)
    requires LeadLength(bs) > 0
    ensures IsScalar(cp)
  {
    var n := LeadLength(bs);
    if n == 1 then bs[0] as int
    else if n == 2 then Combine2(bs[0] as int - 0xC0, bs[1] as int - 0x80)
    else if n == 3 then Combine3(bs[0] as int - 0xE0, bs[1] as int - 0x80, bs[2] as int - 0x80)
    else Combine4(bs[0] as int - 0xF0, bs[1] as int - 0x80, bs[2] as int - 0x80, bs[3] as int - 0x80)
  }

  function Combine2(a: int, b: int): int { a * 64 + b }
  function Combine3(a: int, b: int, c: int): int { a * 4096 + b * 64 + c }
  function Combine4(a: int, b: int, c: int, d: int): int { a * 262144 + b * 4096 + c * 64 + d }

  /** The characters bs encodes, or None when bs is not well-formed UTF-8. */
  function Decode(bs: seq<byte>): Option<string>
    decreases |bs|
  {
    if bs == [] then Some([])
    else
      var n := LeadLength(bs);
      if n == 0 then None
      else match Decode(bs[n..])
        case None => None
        case Some(rest) => Some([LeadCodePoint(bs) as char] + rest)
  }

  function EncodeChar(c: char): (bs: seq<byte>)
    ensures 1 <= |bs| <= 4
  {
    var cp := c as int;
    if cp < 0x80 then [cp]
    else if cp < 0x800 then [0xC0 + cp / 64, 0x80 + cp % 64]
    else if cp < 0x10000 then [0xE0 + cp / 4096, 0x80 + (cp / 64) % 64, 0x80 + cp % 64]
    else [0xF0 + cp / 262144, 0x80 + (cp / 4096) % 64, 0x80 + (cp / 64) % 64, 0x80 + cp % 64]
  }

  function Encode(s: string): seq<byte>
  {
    if s == [] then [] else EncodeChar(s[0]) + Encode(s[1..])
  }

  /** The encoding of one character, followed by anything, decodes back to that character first. */
  lemma DecodeEncodeChar(c: char, rest: seq<byte>)
    ensures LeadLength(EncodeChar(c) + rest) == |EncodeChar(c)|
    ensures LeadCodePoint(EncodeChar(c) + rest) == c as int
  {
    var bs := EncodeChar(c) + rest;
    var cp := c as int;
    if cp < 0x80 {
    } else if cp < 0x800 {
      Split2(cp);
      assert bs[0] == 0xC0 + cp / 64 && bs[1] == 0x80 + cp % 64;
    } else if cp < 0x10000 {
      Split3(cp);
      assert bs[0] == 0xE0 + cp / 4096 && bs[1] == 0x80 + (cp / 64) % 64 && bs[2] == 0x80 + cp % 64;
    } else {
      Split4(cp);
      assert bs[0] == 0xF0 + cp / 262144 && bs[1] == 0x80 + (cp / 4096) % 64;
      assert bs[2] == 0x80 + (cp / 64) % 64 && bs[3] == 0x80 + cp % 64;
    }
  }

  lemma Split2(cp: int)
    requires 0x80 <= cp < 0x800
    ensures Combine2(cp / 64, cp % 64) == cp
    ensures 2 <= cp / 64 <= 0x1F
  {
  }

  lemma Split3(cp: int)
    requires 0x800 <= cp < 0x10000
    ensures Combine3(cp / 4096, (cp / 64) % 64, cp % 64) == cp
    ensures cp / 4096 <= 0x0F
    ensures cp / 4096 == 0 ==> (cp / 64) % 64 >= 0x20
  {
    var q := cp / 64;
    assert cp == q * 64 + cp % 64;
    assert q == (q / 64) * 64 + q % 64;
    assert q / 64 == cp / 4096;
  }

  lemma Split4(cp: int)
    requires 0x10000 <= cp <= 0x10FFFF
    ensures Combine4(cp / 262144, (cp / 4096) % 64, (cp / 64) % 64, cp % 64) == cp
    ensures cp / 262144 <= 4
    ensures cp / 262144 == 0 ==> (cp / 4096) % 64 >= 0x10
    ensures cp / 262144 == 4 ==> (cp / 4096) % 64 < 0x10
  {
    var q := cp / 64;
    var q2 := q / 64;
    assert cp == q * 64 + cp % 64;
    assert q == q2 * 64 + q % 64;
    assert q2 == cp / 4096;
    assert q2 == (q2 / 64) * 64 + q2 % 64;
    assert q2 / 64 == cp / 262144;
  }

  /** A well-formed sequence at the front of bs is the encoding of the character it decodes to. */
  lemma EncodeLeadChar(bs: seq<byte>)
    requires LeadLength(bs) > 0
    ensures EncodeChar(LeadCodePoint(bs) as char) == bs[..LeadLength(bs)]
  {
    var n := LeadLength(bs);
    var cp := LeadCodePoint(bs);
    if n == 2 {
      Join2(bs[0] as int - 0xC0, bs[1] as int - 0x80);
    } else if n == 3 {
      Join3(bs[0] as int - 0xE0, bs[1] as int - 0x80, bs[2] as int - 0x80);
    } else if n == 4 {
      Join4(bs[0] as int - 0xF0, bs[1] as int - 0x80, bs[2] as int - 0x80, bs[3] as int - 0x80);
    }
  }

  lemma Join2(a: int, b: int)
    requires 0 <= b < 64
    ensures Combine2(a, b) / 64 == a && Combine2(a, b) % 64 == b
  {
  }

  lemma Join3(a: int, b: int, c: int)
    requires 0 <= b < 64 && 0 <= c < 64
    ensures var cp := Combine3(a, b, c); cp / 4096 == a && (cp / 64) % 64 == b && cp % 64 == c
  {
    var cp := Combine3(a, b, c);
    assert cp == (a * 64 + b) * 64 + c;
    assert cp / 64 == a * 64 + b;
  }

  lemma Join4(a: int, b: int, c: int, d: int)
    requires 0 <= b < 64 && 0 <= c < 64 && 0 <= d < 64
    ensures var cp := Combine4(a, b, c, d);
      cp / 262144 == a && (cp / 4096) % 64 == b && (cp / 64) % 64 == c && cp % 64 == d
  {
    var cp := Combine4(a, b, c, d);
    var hi := (a * 64 + b) * 64 + c;
    assert cp == hi * 64 + d;
    assert cp / 64 == hi;
    assert cp / 4096 == hi / 64 == a * 64 + b;
    assert cp / 262144 == (cp / 4096) / 64;
  }

  /** Every string survives an encode/decode round trip. */
  lemma {:induction false} DecodeEncode(s: string)
    ensures Decode(Encode(s)) == Some(s)
  {
    if s != [] {
      var e := EncodeChar(s[0]);
      var rest := Encode(s[1..]);
      var bs := e + rest;
      assert Encode(s) == bs;
      DecodeEncodeChar(s[0], rest);
      assert bs[|e|..] == rest;
      DecodeEncode(s[1..]);
      assert Decode(bs) == Some([s[0]] + s[1..]);
      assert [s[0]] + s[1..] == s;
    }
  }

  /** Decoding succeeds only on the encoding of what it returns, so nothing is lost or repaired. */
  lemma {:induction false} EncodeDecode(bs: seq<byte>)
    requires Decode(bs).Some?
    ensures Encode(Decode(bs).value) == bs
  {
    if bs != [] {
      var n := DecodeStep(bs);
      var c := LeadCodePoint(bs) as char;
      var tail := Decode(bs[n..]).value;
      calc {
        Encode(Decode(bs).value);
        Encode([c] + tail);
        { EncodeCons(c, tail); }
        EncodeChar(c) + Encode(tail);
        { EncodeLeadChar(bs); EncodeDecode(bs[n..]); }
        bs[..n] + bs[n..];
        bs;
      }
    }
  }

  /** One step of a successful decode: the leading character, then the decoding of the rest. */
  lemma DecodeStep(bs: seq<byte>) returns (n: nat)
    requires bs != [] && Decode(bs).Some?
    ensures n == LeadLength(bs) && n > 0 && Decode(bs[n..]).Some?
    ensures Decode(bs).value == [LeadCodePoint(bs) as char] + Decode(bs[n..]).value
  {
    n := LeadLength(bs);
  }

  lemma EncodeCons(c: char, t: string)
    ensures Encode([c] + t) == EncodeChar(c) + Encode(t)
  {
    assert ([c] + t)[0] == c && ([c] + t)[1..] == t;
  }
}
