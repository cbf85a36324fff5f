/**
 * Percent-encoding as section 2.1 of RFC 3986 defines it, in the form of
 * Python's `urllib.parse.quote` / `quote_from_bytes`: the text is encoded to
 * UTF-8, every byte that is not safe becomes `%` and two upper-case hex
 * digits. `UnquoteToBytes` (Python's `unquote_to_bytes`) is its partner.
 */
module Percent {
  import opened Utf8

  /** `quote`'s default `safe` argument: '/' is left as it is. */
  const DefaultSafe: string := "/"

  /** Bytes `quote` never escapes: ASCII letters, digits and `_.-~`. */
  predicate IsAlwaysSafe(b: byte) {
    65 <= b <= 90 || 97 <= b <= 122 || 48 <= b <= 57 || b == 95 || b == 46 || b == 45 || b == 126
  }

  /** The extra `safe` characters count only when they are ASCII (the rest are ignored). */
  predicate IsSafe(b: byte, safe: string) {
    IsAlwaysSafe(b) || (b < 128 && b as char in safe)
  }

  function HexDigit(n: int): (c: char)
    requires 0 <= n < 16
    ensures IsHexDigit(c) && HexValue(c) == n
    ensures c != '%' && !('a' <= c <= 'z')
  {
    if n < 10 then ('0' as int + n) as char else ('A' as int + n - 10) as char
  }

  predicate IsHexDigit(c: char) {
    '0' <= c <= '9' || 'a' <= c <= 'f' || 'A' <= c <= 'F'
  }

  function HexValue(c: char): (n: int)
    requires IsHexDigit(c)
    ensures 0 <= n < 16
  {
    if '0' <= c <= '9' then c as int - '0' as int
    else if 'a' <= c <= 'f' then c as int - 'a' as int + 10
    else c as int - 'A' as int + 10
  }

  /** One byte, quoted: itself if safe, otherwise `%XX`. */
  function QuoteByte(b: byte, safe: string): (r: string)
    ensures IsSafe(b, safe) ==> r == [b as char]
    ensures !IsSafe(b, safe) ==> |r| == 3 && r[0] == '%' && IsHexDigit(r[1]) && IsHexDigit(r[2])
    ensures !IsSafe(b, safe) ==> HexValue(r[1]) * 16 + HexValue(r[2]) == b
    ensures !IsSafe(b, safe) ==> !('a' <= r[1] <= 'z') && !('a' <= r[2] <= 'z')
  {
    if IsSafe(b, safe) then [b as char] else ['%', HexDigit(b / 16), HexDigit(b % 16)]
  }

  /** Number of bytes `quote` has to escape. */
  function UnsafeCount(bs: seq<byte>, safe: string): nat {
    if bs == [] then 0 else (if IsSafe(bs[0], safe) then 0 else 1) + UnsafeCount(bs[1..], safe)
  }

  function QuoteFromBytes(bs: seq<byte>, safe: string): (r: string)
    ensures |r| == |bs| + 2 * UnsafeCount(bs, safe)
    ensures forall i :: 0 <= i < |r| ==> r[i] as int < 128
  {
    if bs == [] then [] else QuoteByte(bs[0], safe) + QuoteFromBytes(bs[1..], safe)
  }

  /** `urllib.parse.quote(s, safe)`: the UTF-8 bytes of `s`, quoted; with '%' not safe, unquoting gives those bytes back. */
  function Quote(s: string, safe: string): (r: string)
    ensures forall i :: 0 <= i < |r| ==> r[i] as int < 128
    ensures '%' !in safe ==> UnquoteToBytes(r) == Utf8.Encode(s)
  {
    var r := QuoteFromBytes(Utf8.Encode(s), safe);
    assert '%' !in safe ==> UnquoteToBytes(r) == Utf8.Encode(s) by {
      if '%' !in safe {
        UnquoteQuote(Utf8.Encode(s), safe);
      }
    }
    r
  }

  /**
   * `%` followed by two hex digits (either case) is the byte they spell; any
   * other character stands for its own UTF-8 bytes, a lone `%` included.
   */
  function UnquoteToBytes(s: string): (r: seq<byte>)
    decreases |s|
  {
    if s == [] then []
    else if s[0] == '%' && |s| >= 3 && IsHexDigit(s[1]) && IsHexDigit(s[2]) then
      [HexValue(s[1]) * 16 + HexValue(s[2])] + UnquoteToBytes(s[3..])
    else Utf8.EncodeScalar(s[0]) + UnquoteToBytes(s[1..])
  }

  lemma UnquoteQuoteByte(b: byte, safe: string, rest: string)
    requires '%' !in safe
    ensures UnquoteToBytes(QuoteByte(b, safe) + rest) == [b] + UnquoteToBytes(rest)
  {
    var q := QuoteByte(b, safe);
    if IsSafe(b, safe) {
      assert (q + rest)[0] == b as char && (q + rest)[1..] == rest;
    } else {
      assert (q + rest)[..3] == q && (q + rest)[3..] == rest;
    }
  }

  /** Round trip: as long as '%' itself is not declared safe, unquoting undoes quoting. */
  lemma {:induction false} UnquoteQuote(bs: seq<byte>, safe: string)
    requires '%' !in safe
    ensures UnquoteToBytes(QuoteFromBytes(bs, safe)) == bs
  {
    if bs != [] {
      UnquoteQuoteByte(bs[0], safe, QuoteFromBytes(bs[1..], safe));
      UnquoteQuote(bs[1..], safe);
      assert [bs[0]] + bs[1..] == bs;
    }
  }

  /** Quoting with a given safe set is injective on bytes. */
  lemma QuoteFromBytesInjective(a: seq<byte>, b: seq<byte>, safe: string)
    requires '%' !in safe
    requires QuoteFromBytes(a, safe) == QuoteFromBytes(b, safe)
    ensures a == b
  {
    UnquoteQuote(a, safe);
    UnquoteQuote(b, safe);
  }

  /**
   * A character that is ASCII, not always safe, not declared safe, and neither
   * '%' nor a hex digit never appears in quoted output: every byte that
   * would produce it is escaped.
   */
  lemma {:induction false} QuoteOmits(bs: seq<byte>, safe: string, c: char)
    requires c as int < 128 && !IsAlwaysSafe(c as int) && c !in safe
    requires c != '%' && !IsHexDigit(c)
    ensures c !in QuoteFromBytes(bs, safe)
  {
    if bs != [] {
      QuoteOmits(bs[1..], safe, c);
      var q := QuoteByte(bs[0], safe);
      if IsSafe(bs[0], safe) {
        assert q[0] != c;
      } else {
        assert q[0] != c && q[1] != c && q[2] != c;
      }
    }
  }
}
