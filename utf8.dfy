/**
 * UTF-8 as RFC 3629, section 3 defines it: the encoder behind Python's
 * `str.encode('utf-8')` and the strict decoder behind `bytes.decode('utf-8')`.
 *
 * Text is a Dafny `string`, whose characters are Unicode scalar values, so a
 * lone surrogate (which a Python `str` can hold and on which `encode` raises)
 * cannot occur and encoding cannot fail.
 */
module Utf8 {
  import opened Wrappers

  type byte = b: int | 0 <= b < 256

  /** A byte that may follow the lead byte of a multi-byte sequence (10xxxxxx). */
  predicate IsContinuation(b: byte) {
    0x80 <= b < 0xC0
  }

  /** The one to four bytes that encode a single scalar value. */
  function EncodeScalar(c: char): (r: seq<byte>)
    ensures 1 <= |r| <= 4
    ensures |r| == 1 <==> c as int < 0x80
    ensures |r| == 1 ==> r[0] == c as int
    ensures forall i :: 1 <= i < |r| ==> IsContinuation(r[i])
  {
    var v := c as int;
    if v < 0x80 then [v]
    else if v < 0x800 then [0xC0 + v / 64, 0x80 + v % 64]
    else if v < 0x10000 then [0xE0 + v / 4096, 0x80 + v / 64 % 64, 0x80 + v % 64]
    else [0xF0 + v / 262144, 0x80 + v / 4096 % 64, 0x80 + v / 64 % 64, 0x80 + v % 64]
  }

  /** The UTF-8 bytes of a text: the concatenation of the encodings of its characters. */
  function Encode(s: string): (r: seq<byte>)
    ensures |s| <= |r| <= 4 * |s|
    ensures (forall i :: 0 <= i < |s| ==> s[i] as int < 0x80) ==> |r| == |s|
  {
    if s == [] then [] else EncodeScalar(s[0]) + Encode(s[1..])
  }

  /** ASCII text encodes to one byte per character, its code. */
  lemma {:induction false} EncodeAscii(s: string)
    requires forall i :: 0 <= i < |s| ==> s[i] as int < 0x80
    ensures |Encode(s)| == |s|
    ensures forall i :: 0 <= i < |s| ==> Encode(s)[i] == s[i] as int
  {
    if s != [] {
      EncodeAscii(s[1..]);
      assert forall i :: 1 <= i < |s| ==> Encode(s)[i] == Encode(s[1..])[i - 1];
    }
  }

  /**
   * Reads one scalar value from the front of `bs`: the character and the number
   * of bytes it took, or None when the front is not a well-formed UTF-8
   * sequence (a stray continuation byte, a truncated sequence, an overlong
   * form, a surrogate, or a value above U+10FFFF).
   */
  function DecodeScalar(bs: seq<byte>): (r: Option<(char, nat)>)
    ensures r.Some? ==> 1 <= r.value.1 <= |bs| && r.value.1 <= 4
    ensures |bs| > 0 && bs[0] < 0x80 ==> r == Some((bs[0] as char, 1))
  {
    if |bs| == 0 then None
    else
      var b0 := bs[0] as int;
      if b0 < 0x80 then Some((b0 as char, 1))
      else if 0xC2 <= b0 < 0xE0 then
        if |bs| < 2 || !IsContinuation(bs[1]) then None
        else Some((((b0 - 0xC0) * 64 + (bs[1] as int - 0x80)) as char, 2))
      else if 0xE0 <= b0 < 0xF0 then
        if |bs| < 3 || !IsContinuation(bs[1]) || !IsContinuation(bs[2]) then None
        else
          var v := (b0 - 0xE0) * 4096 + (bs[1] as int - 0x80) * 64 + (bs[2] as int - 0x80);
          if v < 0x800 || 0xD800 <= v < 0xE000 then None
          else Some((v as char, 3))
      else if 0xF0 <= b0 < 0xF5 then
        if |bs| < 4 || !IsContinuation(bs[1]) || !IsContinuation(bs[2]) || !IsContinuation(bs[3]) then None
        else
          var v := (b0 - 0xF0) * 262144 + (bs[1] as int - 0x80) * 4096 + (bs[2] as int - 0x80) * 64 + (bs[3] as int - 0x80);
          if v < 0x10000 || 0x110000 <= v then None
          else Some((v as char, 4))
      else None
  }

  /** Strict decoding of a whole byte sequence; None on the first malformed sequence. */
  function Decode(bs: seq<byte>): (r: Option<string>)
    ensures (forall i :: 0 <= i < |bs| ==> bs[i] < 0x80) ==> r.Some? && |r.value| == |bs|
    decreases |bs|
  {
    if |bs| == 0 then Some([])
    else
      match DecodeScalar(bs)
      case None => None
      case Some((c, n)) =>
        match Decode(bs[n..])
        case None => None
        case Some(rest) => Some([c] + rest)
  }

  /** Splitting a number into six-bit groups: the quotient and remainder by 64 are unique. */
  lemma DivMod64(q: int, r: int)
    requires 0 <= q && 0 <= r < 64
    ensures (q * 64 + r) / 64 == q && (q * 64 + r) % 64 == r
  {
  }

  lemma DecodeTwoBytes(c: char, rest: seq<byte>)
    requires 0x80 <= c as int < 0x800
    ensures DecodeScalar(EncodeScalar(c) + rest) == Some((c, 2))
  {
    var v := c as int;
    var bs := EncodeScalar(c) + rest;
    DivMod64(v / 64, v % 64);
    assert bs[0] == 0xC0 + v / 64 && bs[1] == 0x80 + v % 64;
  }

  lemma DecodeThreeBytes(c: char, rest: seq<byte>)
    requires 0x800 <= c as int < 0x10000
    ensures DecodeScalar(EncodeScalar(c) + rest) == Some((c, 3))
  {
    var v := c as int;
    var hi := v / 64;
    var bs := EncodeScalar(c) + rest;
    DivMod64(hi / 64, hi % 64);
    DivMod64(hi, v % 64);
    assert v / 4096 == hi / 64;
    assert bs[0] == 0xE0 + hi / 64 && bs[1] == 0x80 + hi % 64 && bs[2] == 0x80 + v % 64;
    assert (hi / 64) * 4096 + (hi % 64) * 64 + v % 64 == v;
  }

  lemma DecodeFourBytes(c: char, rest: seq<byte>)
    requires 0x10000 <= c as int
    ensures DecodeScalar(EncodeScalar(c) + rest) == Some((c, 4))
  {
    var v := c as int;
    var hi := v / 64;
    var top := hi / 64;
    var bs := EncodeScalar(c) + rest;
    DivMod64(top / 64, top % 64);
    DivMod64(top, hi % 64);
    DivMod64(hi, v % 64);
    assert v / 4096 == top && v / 262144 == top / 64;
    assert bs[0] == 0xF0 + top / 64 && bs[1] == 0x80 + top % 64;
    assert bs[2] == 0x80 + hi % 64 && bs[3] == 0x80 + v % 64;
    assert (top / 64) * 262144 + (top % 64) * 4096 + (hi % 64) * 64 + v % 64 == v;
  }

  /** Decoding the encoding of one character gives that character back and consumes exactly its bytes. */
  lemma DecodeScalarOfEncodeScalar(c: char, rest: seq<byte>)
    ensures DecodeScalar(EncodeScalar(c) + rest) == Some((c, |EncodeScalar(c)|))
  {
    var v := c as int;
    if v < 0x80 {
    } else if v < 0x800 {
      DecodeTwoBytes(c, rest);
    } else if v < 0x10000 {
      DecodeThreeBytes(c, rest);
    } else {
      DecodeFourBytes(c, rest);
    }
  }

  lemma EncodeTwoBytes(bs: seq<byte>)
    requires |bs| >= 2 && 0xC2 <= bs[0] < 0xE0 && IsContinuation(bs[1])
    ensures var v := (bs[0] as int - 0xC0) * 64 + (bs[1] as int - 0x80);
      0x80 <= v < 0x800 && EncodeScalar(v as char) == bs[..2]
  {
    DivMod64(bs[0] as int - 0xC0, bs[1] as int - 0x80);
  }

  lemma EncodeThreeBytes(bs: seq<byte>)
    requires |bs| >= 3 && 0xE0 <= bs[0] < 0xF0 && IsContinuation(bs[1]) && IsContinuation(bs[2])
    ensures var v := (bs[0] as int - 0xE0) * 4096 + (bs[1] as int - 0x80) * 64 + (bs[2] as int - 0x80);
      0x800 <= v && !(0xD800 <= v < 0xE000) ==> EncodeScalar(v as char) == bs[..3]
  {
    var hi := (bs[0] as int - 0xE0) * 64 + (bs[1] as int - 0x80);
    var v := hi * 64 + (bs[2] as int - 0x80);
    DivMod64(bs[0] as int - 0xE0, bs[1] as int - 0x80);
    DivMod64(hi, bs[2] as int - 0x80);
    assert v / 4096 == (v / 64) / 64;
  }

  lemma EncodeFourBytes(bs: seq<byte>)
    requires |bs| >= 4 && 0xF0 <= bs[0] < 0xF5
    requires IsContinuation(bs[1]) && IsContinuation(bs[2]) && IsContinuation(bs[3])
    ensures var v := (bs[0] as int - 0xF0) * 262144 + (bs[1] as int - 0x80) * 4096
        + (bs[2] as int - 0x80) * 64 + (bs[3] as int - 0x80);
      0x10000 <= v < 0x110000 ==> EncodeScalar(v as char) == bs[..4]
  {
    var hi := (bs[0] as int - 0xF0) * 64 + (bs[1] as int - 0x80);
    var mid := hi * 64 + (bs[2] as int - 0x80);
    var v := mid * 64 + (bs[3] as int - 0x80);
    DivMod64(bs[0] as int - 0xF0, bs[1] as int - 0x80);
    DivMod64(hi, bs[2] as int - 0x80);
    DivMod64(mid, bs[3] as int - 0x80);
    assert v / 4096 == (v / 64) / 64;
    assert v / 262144 == (v / 4096) / 64;
  }

  /** Whatever `DecodeScalar` accepts is exactly the encoding of the character it returns. */
  lemma EncodeScalarOfDecodeScalar(bs: seq<byte>)
    requires DecodeScalar(bs).Some?
    ensures EncodeScalar(DecodeScalar(bs).value.0) == bs[..DecodeScalar(bs).value.1]
  {
    var b0 := bs[0] as int;
    if b0 < 0x80 {
    } else if b0 < 0xE0 {
      EncodeTwoBytes(bs);
    } else if b0 < 0xF0 {
      EncodeThreeBytes(bs);
    } else {
      EncodeFourBytes(bs);
    }
  }

  /** Round trip: decoding the UTF-8 of any text gives the text back. */
  lemma {:induction false} DecodeEncode(s: string)
    ensures Decode(Encode(s)) == Some(s)
  {
    if s != [] {
      var e := EncodeScalar(s[0]);
      DecodeScalarOfEncodeScalar(s[0], Encode(s[1..]));
      assert (e + Encode(s[1..]))[|e|..] == Encode(s[1..]);
      DecodeEncode(s[1..]);
      assert [s[0]] + s[1..] == s;
    }
  }

  /** A successful decode is the first character followed by the decode of the remaining bytes. */
  lemma DecodeStep(bs: seq<byte>)
    requires |bs| > 0 && Decode(bs).Some?
    ensures DecodeScalar(bs).Some?
    ensures var n := DecodeScalar(bs).value.1;
      Decode(bs[n..]).Some? && Decode(bs).value == [DecodeScalar(bs).value.0] + Decode(bs[n..]).value
  {
  }

  lemma EncodeCons(c: char, tail: string)
    ensures Encode([c] + tail) == EncodeScalar(c) + Encode(tail)
  {
    assert ([c] + tail)[0] == c && ([c] + tail)[1..] == tail;
  }

  /** Round trip the other way: every byte sequence the decoder accepts is the encoding of what it decodes to. */
  lemma {:induction false} EncodeDecode(bs: seq<byte>)
    requires Decode(bs).Some?
    ensures Encode(Decode(bs).value) == bs
    decreases |bs|
  {
    if |bs| > 0 {
      var c, n := DecodeHead(bs);
      var tail := Decode(bs[n..]).value;
      EncodeDecode(bs[n..]);
      EncodeCons(c, tail);
      assert Encode([c] + tail) == bs[..n] + bs[n..];
      assert bs[..n] + bs[n..] == bs;
    }
  }

  /** A successful decode starts with one character whose encoding is exactly the bytes it was read from. */
  lemma DecodeHead(bs: seq<byte>) returns (c: char, n: nat)
    requires |bs| > 0 && Decode(bs).Some?
    ensures 1 <= n <= |bs| && Decode(bs[n..]).Some?
    ensures Decode(bs).value == [c] + Decode(bs[n..]).value
    ensures EncodeScalar(c) == bs[..n]
  {
    DecodeStep(bs);
    c, n := DecodeScalar(bs).value.0, DecodeScalar(bs).value.1;
    EncodeScalarOfDecodeScalar(bs);
  }

  /** Distinct texts have distinct UTF-8 encodings. */
  lemma EncodeInjective(s: string, t: string)
    requires Encode(s) == Encode(t)
    ensures s == t
  {
    DecodeEncode(s);
    DecodeEncode(t);
  }
}
