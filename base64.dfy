/**
 * Base64 as section 4 of RFC 4648 defines it, with `=` padding: the encoder
 * behind Python's `base64.b64encode`, and a strict decoder as its partner.
 * Both work on bytes; the encoded form is ASCII bytes.
 */
module Base64 {
  import opened Wrappers
  import opened Utf8

  /** ASCII code of '=' */
  const Pad: byte := 61

  /** ASCII code of the alphabet letter for a six-bit value: A-Z, a-z, 0-9, '+', '/'. */
  function Letter(i: int): (r: byte)
    requires 0 <= i < 64
    ensures IsLetter(r) && ValueOf(r) == i
  {
    if i < 26 then 65 + i
    else if i < 52 then 97 + (i - 26)
    else if i < 62 then 48 + (i - 52)
    else if i == 62 then 43
    else 47
  }

  predicate IsLetter(b: byte) {
    65 <= b <= 90 || 97 <= b <= 122 || 48 <= b <= 57 || b == 43 || b == 47
  }

  /** The six-bit value an alphabet letter stands for. */
  function ValueOf(b: byte): (r: int)
    requires IsLetter(b)
    ensures 0 <= r < 64
  {
    if 65 <= b <= 90 then b - 65
    else if 97 <= b <= 122 then b - 97 + 26
    else if 48 <= b <= 57 then b - 48 + 52
    else if b == 43 then 62
    else 63
  }

  /** Four letters for three whole bytes. */
  function EncodeGroup(b0: byte, b1: byte, b2: byte): seq<byte> {
    [Letter(b0 / 4), Letter(b0 % 4 * 16 + b1 / 16), Letter(b1 % 16 * 4 + b2 / 64), Letter(b2 % 64)]
  }

  /** The final quantum: one or two bytes, padded with `=` to four characters. */
  function EncodeTail(bs: seq<byte>): seq<byte>
    requires 1 <= |bs| <= 2
  {
    if |bs| == 1 then [Letter(bs[0] / 4), Letter(bs[0] % 4 * 16), Pad, Pad]
    else [Letter(bs[0] / 4), Letter(bs[0] % 4 * 16 + bs[1] / 16), Letter(bs[1] % 16 * 4), Pad]
  }

  /** A byte of encoded output: an alphabet letter or the pad character. */
  predicate IsEncodedByte(b: byte) {
    IsLetter(b) || b == Pad
  }

  function Encode(bs: seq<byte>): (r: seq<byte>)
    ensures |r| == 4 * ((|bs| + 2) / 3)
    ensures forall i :: 0 <= i < |r| ==> IsEncodedByte(r[i])
    decreases |bs|
  {
    if |bs| == 0 then []
    else if |bs| <= 2 then EncodeTail(bs)
    else EncodeGroup(bs[0], bs[1], bs[2]) + Encode(bs[3..])
  }

  /** Decodes a final quantum of four characters, which may end in one or two `=`. */
  function DecodeLast(q: seq<byte>): (r: Option<seq<byte>>)
    requires |q| == 4
  {
    if !IsLetter(q[0]) || !IsLetter(q[1]) then None
    else
      var v0, v1 := ValueOf(q[0]), ValueOf(q[1]);
      if q[2] == Pad && q[3] == Pad then
        if v1 % 16 != 0 then None else Some([v0 * 4 + v1 / 16])
      else if !IsLetter(q[2]) then None
      else
        var v2 := ValueOf(q[2]);
        if q[3] == Pad then
          if v2 % 4 != 0 then None else Some([v0 * 4 + v1 / 16, v1 % 16 * 16 + v2 / 4])
        else if !IsLetter(q[3]) then None
        else Some([v0 * 4 + v1 / 16, v1 % 16 * 16 + v2 / 4, v2 % 4 * 64 + ValueOf(q[3])])
  }

  /** Decodes a quantum of four alphabet letters (no padding allowed). */
  function DecodeFull(q: seq<byte>): (r: Option<seq<byte>>)
    requires |q| == 4
  {
    if !IsLetter(q[0]) || !IsLetter(q[1]) || !IsLetter(q[2]) || !IsLetter(q[3]) then None
    else
      var v0, v1, v2, v3 := ValueOf(q[0]), ValueOf(q[1]), ValueOf(q[2]), ValueOf(q[3]);
      Some([v0 * 4 + v1 / 16, v1 % 16 * 16 + v2 / 4, v2 % 4 * 64 + v3])
  }

  /**
   * Strict decoding: the length is a multiple of four, `=` appears only at the
   * end of the last quantum, and the bits the padding leaves over are zero
   * (the canonical encoding of section 3.5 of RFC 4648).
   */
  function Decode(s: seq<byte>): (r: Option<seq<byte>>)
    decreases |s|
  {
    if |s| == 0 then Some([])
    else if |s| < 4 then None
    else if |s| == 4 then DecodeLast(s)
    else
      match DecodeFull(s[..4])
      case None => None
      case Some(head) =>
        match Decode(s[4..])
        case None => None
        case Some(tail) => Some(head + tail)
  }

  /** A byte split at bit `k` (as `hi * 2^k + lo`) is put back together exactly. */
  lemma Recombine(hi: int, lo: int, m: int)
    requires m == 4 || m == 16 || m == 64
    requires 0 <= hi && 0 <= lo < m
    ensures (hi * m + lo) / m == hi && (hi * m + lo) % m == lo
  {
  }

  lemma DecodeGroup(b0: byte, b1: byte, b2: byte)
    ensures DecodeFull(EncodeGroup(b0, b1, b2)) == Some([b0, b1, b2])
    ensures DecodeLast(EncodeGroup(b0, b1, b2)) == Some([b0, b1, b2])
  {
    var v0, v1, v2, v3 := b0 / 4, b0 % 4 * 16 + b1 / 16, b1 % 16 * 4 + b2 / 64, b2 % 64;
    Recombine(b0 % 4, b1 / 16, 16);
    Recombine(b1 % 16, b2 / 64, 4);
    assert v0 * 4 + v1 / 16 == b0;
    assert v1 % 16 * 16 + v2 / 4 == b1;
    assert v2 % 4 * 64 + v3 == b2;
    var q := EncodeGroup(b0, b1, b2);
    assert ValueOf(q[0]) == v0 && ValueOf(q[1]) == v1 && ValueOf(q[2]) == v2 && ValueOf(q[3]) == v3;
  }

  lemma DecodeTail(bs: seq<byte>)
    requires 1 <= |bs| <= 2
    ensures DecodeLast(EncodeTail(bs)) == Some(bs)
  {
    var q := EncodeTail(bs);
    if |bs| == 1 {
      assert ValueOf(q[0]) == bs[0] / 4 && ValueOf(q[1]) == bs[0] % 4 * 16;
      assert [bs[0]] == bs;
    } else {
      assert ValueOf(q[0]) == bs[0] / 4 && ValueOf(q[1]) == bs[0] % 4 * 16 + bs[1] / 16;
      assert ValueOf(q[2]) == bs[1] % 16 * 4;
      assert [bs[0], bs[1]] == bs;
    }
  }

  /** Round trip: decoding the encoding of any byte string gives it back. */
  lemma {:induction false} DecodeEncode(bs: seq<byte>)
    ensures Decode(Encode(bs)) == Some(bs)
    decreases |bs|
  {
    if |bs| == 0 {
    } else if |bs| <= 2 {
      DecodeTail(bs);
    } else if |bs| == 3 {
      DecodeGroup(bs[0], bs[1], bs[2]);
      assert Encode(bs) == EncodeGroup(bs[0], bs[1], bs[2]);
      assert [bs[0], bs[1], bs[2]] == bs;
    } else {
      var e := Encode(bs);
      var g := EncodeGroup(bs[0], bs[1], bs[2]);
      DecodeGroup(bs[0], bs[1], bs[2]);
      DecodeEncode(bs[3..]);
      assert e[..4] == g && e[4..] == Encode(bs[3..]);
      assert [bs[0], bs[1], bs[2]] + bs[3..] == bs;
    }
  }

  /** Distinct byte strings have distinct encodings. */
  lemma EncodeInjective(a: seq<byte>, b: seq<byte>)
    requires Encode(a) == Encode(b)
    ensures a == b
  {
    DecodeEncode(a);
    DecodeEncode(b);
  }
}
