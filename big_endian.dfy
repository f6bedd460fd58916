/** Bytes and the big-endian unsigned integers that struct's '>H', '>I' and '>Q' formats decode. */
module BigEndian {

  type byte = b: int | 0 <= b < 256

  /** 256^w: one more than the largest value w bytes can hold. */
  function Pow256(w: nat): (p: nat)
    ensures p >= 1
  {
    if w == 0 then 1 else 256 * Pow256(w - 1)
  }

  /** The unsigned integer whose big-endian encoding is `bs`. */
  function FromBE(bs: seq<byte>): (n: nat)
    ensures n < Pow256(|bs|)
    decreases |bs|
  {
    if bs == [] then 0 else FromBE(bs[..|bs| - 1]) * 256 + bs[|bs| - 1]
  }

  /** The w-byte big-endian encoding of n (the high bytes dropped when n does not fit). */
  function ToBE(n: nat, w: nat): (bs: seq<byte>)
    ensures |bs| == w
  {
    if w == 0 then [] else ToBE(n / 256, w - 1) + [n % 256]
  }

  /** Encoding a value that fits and decoding it again gives the value back. */
  lemma {:induction false} FromToBE(n: nat, w: nat)
    requires n < Pow256(w)
    ensures FromBE(ToBE(n, w)) == n
  {
    if w > 0 {
      var q := n / 256;
      ToBELast(n, w);
      DropLowByte(n, Pow256(w - 1));
      FromToBE(q, w - 1);
      FromBELast(ToBE(n, w));
      assert FromBE(ToBE(n, w)) == q * 256 + n % 256;
    }
  }

  /** The w-byte encoding of n is the (w-1)-byte encoding of n / 256 followed by n's low byte. */
  lemma ToBELast(n: nat, w: nat)
    requires w > 0
    ensures ToBE(n, w)[..w - 1] == ToBE(n / 256, w - 1) && ToBE(n, w)[w - 1] == n % 256
  {
  }

  /** A value below 256 encodes in one byte as itself. */
  lemma ToBEByte(n: nat)
    requires n < 256
    ensures ToBE(n, 1) == [n as byte]
  {
    assert ToBE(n, 1) == ToBE(n / 256, 0) + [n % 256];
  }

  /** The value of bytes is the value of all but the last, shifted one byte, plus the last. */
  lemma FromBELast(bs: seq<byte>)
    requires bs != []
    ensures FromBE(bs) == FromBE(bs[..|bs| - 1]) * 256 + bs[|bs| - 1]
  {
  }

  /** Dropping the low byte of a number below 256 * p leaves a number below p. */
  lemma DropLowByte(n: nat, p: nat)
    requires n < 256 * p
    ensures n / 256 < p && n == n / 256 * 256 + n % 256
  {
  }

  /** Decoding bytes and encoding the value at the same width gives the bytes back. */
  lemma {:induction false} ToFromBE(bs: seq<byte>)
    ensures ToBE(FromBE(bs), |bs|) == bs
  {
    if bs != [] {
      var init := bs[..|bs| - 1];
      var n := FromBE(bs);
      assert n / 256 == FromBE(init) && n % 256 == bs[|bs| - 1];
      ToFromBE(init);
    }
  }

  /** Two byte strings of the same length with the same value are equal. */
  lemma FromBEInjective(a: seq<byte>, b: seq<byte>)
    requires |a| == |b| && FromBE(a) == FromBE(b)
    ensures a == b
  {
    ToFromBE(a);
    ToFromBE(b);
  }

  lemma SliceSplit(s: seq<byte>, a: nat, b: nat, c: nat)
    requires a <= b <= c <= |s|
    ensures s[a..c] == s[a..b] + s[b..c]
  {
  }
}
