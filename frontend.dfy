/**
 * The media-URL transformation composer of the Streamlit client: the caption
 * encoder `encode_text_for_overlay` and `create_transformed_url`, which splices
 * a `tr:` directive segment into an asset URL after its fourth `/`.
 *
 * Python's `None` is `Option.None`; an argument is "truthy" when it is present
 * and non-empty, as in the source's `if caption:` and `if not text:` tests.
 */
module Frontend {
  import opened Wrappers
  import Utf8
  import Base64
  import Percent
  import PyStr

  /** Directive the image card passes (frontend.py:260). */
  const ImageDirective: string := "w-900,h-900,cm-pad_resize"
  /** Directive the video card passes (frontend.py:265). */
  const VideoDirective: string := "w-900,h-500,cm-pad_resize"

  /** The text-overlay template around the encoded caption. */
  const OverlayHead: string := "l-text,ie-"
  const OverlayTail: string := ",ly-N20" + ",lx-20" + ",fs-100" + ",co-white" + ",bg-000000A0" + ",l-end"

  predicate IsTruthy(s: Option<string>) {
    s.Some? && s.value != ""
  }

  // ---------------------------------------------------------------------------
  // encode_text_for_overlay
  // ---------------------------------------------------------------------------

  /**
   * `base64.b64encode(t.encode('utf-8')).decode('utf-8')`: the base64 bytes are
   * ASCII, so decoding them as UTF-8 succeeds and gives a str whose UTF-8 is
   * those bytes again.
   */
  function Base64Text(t: string): (r: string)
    ensures Utf8.Encode(r) == Base64.Encode(Utf8.Encode(t))
  {
    var b := Base64.Encode(Utf8.Encode(t));
    assert forall i :: 0 <= i < |b| ==> b[i] < 0x80 by {
      forall i | 0 <= i < |b| ensures b[i] < 0x80 {
        assert Base64.IsEncodedByte(b[i]);
      }
    }
    Utf8.EncodeDecode(b);
    Utf8.Decode(b).value
  }

  /** Base64 of the UTF-8 of `t`, then `urllib.parse.quote` with the given `safe` characters. */
  function EncodeWith(t: string, safe: string): (r: string)
    ensures |r| >= 4 * ((|Utf8.Encode(t)| + 2) / 3)
  {
    Percent.Quote(Base64Text(t), safe)
  }

  /** `encode_text_for_overlay`: "" for None or "", otherwise quote (safe='/') of the base64 text. */
  function EncodeTextForOverlay(text: Option<string>): (r: string)
    ensures r == "" <==> !IsTruthy(text)
  {
    if !IsTruthy(text) then "" else EncodeWith(text.value, Percent.DefaultSafe)
  }

  /** The encoding of a non-empty text, as bytes: quote of the base64 of its UTF-8. */
  lemma EncodeTextForOverlayBytes(t: string)
    requires t != ""
    ensures EncodeTextForOverlay(Some(t))
      == Percent.QuoteFromBytes(Base64.Encode(Utf8.Encode(t)), Percent.DefaultSafe)
  {
  }

  /** What the encoded caption is made of: letters, digits, '/', and the escapes %2B and %3D. */
  predicate IsOverlayText(s: string)
    decreases |s|
  {
    || s == []
    || (('A' <= s[0] <= 'Z' || 'a' <= s[0] <= 'z' || '0' <= s[0] <= '9' || s[0] == '/') && IsOverlayText(s[1..]))
    || (|s| >= 3 && (s[..3] == "%2B" || s[..3] == "%3D") && IsOverlayText(s[3..]))
  }

  lemma {:induction false} QuotedBase64IsOverlayText(bs: seq<Utf8.byte>)
    requires forall i :: 0 <= i < |bs| ==> Base64.IsEncodedByte(bs[i])
    ensures IsOverlayText(Percent.QuoteFromBytes(bs, Percent.DefaultSafe))
  {
    if bs != [] {
      var b := bs[0];
      var q := Percent.QuoteByte(b, Percent.DefaultSafe);
      var rest := Percent.QuoteFromBytes(bs[1..], Percent.DefaultSafe);
      QuotedBase64IsOverlayText(bs[1..]);
      var s := q + rest;
      if b == 43 {
        assert q == "%2B";
        assert s[..3] == q && s[3..] == rest;
      } else if b == 61 {
        assert q == "%3D";
        assert s[..3] == q && s[3..] == rest;
      } else {
        assert q == [b as char];
        assert s[1..] == rest;
      }
    }
  }

  lemma {:induction false} OverlayTextHasNoDelimiters(s: string)
    requires IsOverlayText(s)
    ensures forall i :: 0 <= i < |s| ==> s[i] != '+' && s[i] != '=' && s[i] != ','
  {
    if s != [] {
      if ('A' <= s[0] <= 'Z' || 'a' <= s[0] <= 'z' || '0' <= s[0] <= '9' || s[0] == '/') && IsOverlayText(s[1..]) {
        OverlayTextHasNoDelimiters(s[1..]);
        assert forall i :: 1 <= i < |s| ==> s[i] == s[1..][i - 1];
      } else {
        OverlayTextHasNoDelimiters(s[3..]);
        assert forall i :: 3 <= i < |s| ==> s[i] == s[3..][i - 3];
      }
    }
  }

  /**
   * The encoded caption uses only letters, digits, '/', %2B and %3D, so it
   * never holds a raw '+', '=' or ',' (the last separates directive tokens).
   * '/' is NOT escaped: it is in `quote`'s default safe set.
   */
  lemma EncodedOverlayAlphabet(text: Option<string>)
    ensures IsOverlayText(EncodeTextForOverlay(text))
    ensures var r := EncodeTextForOverlay(text);
      forall i :: 0 <= i < |r| ==> r[i] != '+' && r[i] != '=' && r[i] != ','
  {
    if IsTruthy(text) {
      var b := Base64.Encode(Utf8.Encode(text.value));
      assert Utf8.Encode(Base64Text(text.value)) == b;
      QuotedBase64IsOverlayText(b);
    }
    OverlayTextHasNoDelimiters(EncodeTextForOverlay(text));
  }

  /** Percent-decoding and then base64-decoding the encoding gives back the UTF-8 bytes, and so the text. */
  lemma EncodeWithRoundTrip(t: string, safe: string)
    requires '%' !in safe
    ensures Base64.Decode(Percent.UnquoteToBytes(EncodeWith(t, safe))) == Some(Utf8.Encode(t))
    ensures Utf8.Decode(Utf8.Encode(t)) == Some(t)
  {
    var b := Base64.Encode(Utf8.Encode(t));
    Percent.UnquoteQuote(b, safe);
    Base64.DecodeEncode(Utf8.Encode(t));
    Utf8.DecodeEncode(t);
  }

  /**
   * The round trip of `encode_text_for_overlay` for every caption: the empty
   * encoding of None and "" decodes to no bytes, any other caption to its UTF-8.
   */
  lemma OverlayRoundTrip(text: Option<string>)
    ensures Base64.Decode(Percent.UnquoteToBytes(EncodeTextForOverlay(text)))
      == Some(if IsTruthy(text) then Utf8.Encode(text.value) else [])
  {
    if IsTruthy(text) {
      EncodeWithRoundTrip(text.value, Percent.DefaultSafe);
    }
  }

  /** Distinct non-empty texts have distinct encodings, and only None and "" encode to "". */
  lemma OverlayInjective(a: Option<string>, b: Option<string>)
    requires EncodeTextForOverlay(a) == EncodeTextForOverlay(b)
    ensures IsTruthy(a) <==> IsTruthy(b)
    ensures IsTruthy(a) ==> a == b
  {
    if IsTruthy(a) && IsTruthy(b) {
      OverlayRoundTrip(a);
      OverlayRoundTrip(b);
      Utf8.EncodeInjective(a.value, b.value);
    }
  }

  // ---------------------------------------------------------------------------
  // create_transformed_url
  // ---------------------------------------------------------------------------

  /** The fixed text-overlay directive around an encoded caption. */
  function OverlayDirective(encoded: string): (d: string)
    ensures |d| == |OverlayHead| + |encoded| + |OverlayTail|
  {
    OverlayHead + encoded + OverlayTail
  }

  /** A truthy caption replaces whatever directive was passed; otherwise the directive is used as is. */
  function EffectiveDirective(params: Option<string>, caption: Option<string>): (d: Option<string>)
    ensures IsTruthy(caption) ==> IsTruthy(d)
    ensures !IsTruthy(caption) ==> d == params
  {
    if IsTruthy(caption) then Some(OverlayDirective(EncodeTextForOverlay(caption))) else params
  }

  /** Splitting on '/' and rejoining around a `tr:<directive>` piece after the fourth piece. */
  function InsertDirective(url: string, directive: Option<string>): (r: string)
    ensures !IsTruthy(directive) ==> r == url
    ensures PyStr.Count(url, '/') < 4 ==> r == url
  {
    if !IsTruthy(directive) then url
    else
      var parts := PyStr.Split(url, '/');
      if |parts| < 5 then url
      else
        var filePath := PyStr.Join(parts[4..], '/');
        var baseUrl := PyStr.Join(parts[..4], '/');
        baseUrl + "/tr:" + directive.value + "/" + filePath
  }

  /** `create_transformed_url(original_url, transformation_params, caption)`. */
  function CreateTransformedUrl(url: string, params: Option<string>, caption: Option<string>): (r: string)
    ensures !IsTruthy(params) && !IsTruthy(caption) ==> r == url
    ensures PyStr.Count(url, '/') < 4 ==> r == url
  {
    InsertDirective(url, EffectiveDirective(params, caption))
  }

  /**
   * The rewrite, stated on the URL text itself: `tr:<directive>/` is inserted
   * right after the fourth '/', everything before it is kept as a prefix and
   * everything after it as a suffix, and the URL grows by the directive's
   * length plus four.
   */
  lemma InsertDirectiveSplices(url: string, directive: Option<string>)
    ensures var r := InsertDirective(url, directive);
      if IsTruthy(directive) && PyStr.Count(url, '/') >= 4 then
        var k := PyStr.IndexAfterNth(url, '/', 4);
        && r == url[..k] + "tr:" + directive.value + "/" + url[k..]
        && |r| == |url| + |directive.value| + 4
        && PyStr.Count(url[..k], '/') == 4 && url[k - 1] == '/'
      else r == url
  {
    if IsTruthy(directive) && PyStr.Count(url, '/') >= 4 {
      PyStr.SplitPrefixSuffix(url, '/', 4);
    }
  }

  /** The rewrite of `create_transformed_url` on the URL text, for each choice of effective directive. */
  lemma CreateTransformedUrlSplices(url: string, params: Option<string>, caption: Option<string>)
    ensures var r := CreateTransformedUrl(url, params, caption);
      var d := EffectiveDirective(params, caption);
      if IsTruthy(d) && PyStr.Count(url, '/') >= 4 then
        var k := PyStr.IndexAfterNth(url, '/', 4);
        r == url[..k] + "tr:" + d.value + "/" + url[k..]
      else r == url
  {
    InsertDirectiveSplices(url, EffectiveDirective(params, caption));
  }

  /** Priority law: with a truthy caption the passed directive has no influence on the result. */
  lemma CaptionOverridesDirective(url: string, p1: Option<string>, p2: Option<string>, caption: Option<string>)
    requires IsTruthy(caption)
    ensures CreateTransformedUrl(url, p1, caption) == CreateTransformedUrl(url, p2, caption)
    ensures EffectiveDirective(p1, caption) == Some(OverlayHead + EncodeTextForOverlay(caption) + OverlayTail)
  {
  }

  /**
   * With a truthy caption and a URL that has four '/', the inserted directive
   * is exactly the overlay template around the encoded caption.
   */
  lemma CaptionOverlaySplice(url: string, params: Option<string>, caption: Option<string>)
    requires IsTruthy(caption) && PyStr.Count(url, '/') >= 4
    ensures var k := PyStr.IndexAfterNth(url, '/', 4);
      CreateTransformedUrl(url, params, caption)
        == url[..k] + "tr:" + OverlayHead + EncodeTextForOverlay(caption) + OverlayTail + "/" + url[k..]
  {
    CreateTransformedUrlSplices(url, params, caption);
    var k := PyStr.IndexAfterNth(url, '/', 4);
    SpliceAssoc(url[..k], "tr:", OverlayHead, EncodeTextForOverlay(caption), OverlayTail, "/", url[k..]);
  }

  lemma SpliceAssoc(a: string, b: string, h: string, e: string, t: string, y: string, z: string)
    ensures a + b + (h + e + t) + y + z == a + b + h + e + t + y + z
  {
  }

  /**
   * A directive without '/' becomes exactly one new path segment: the pieces of
   * the result are the URL's pieces with `tr:<directive>` inserted at index 4.
   */
  lemma {:induction false} InsertDirectiveSegments(url: string, directive: string)
    requires directive != "" && '/' !in directive
    requires PyStr.Count(url, '/') >= 4
    ensures var parts := PyStr.Split(url, '/');
      PyStr.Split(InsertDirective(url, Some(directive)), '/') == parts[..4] + ["tr:" + directive] + parts[4..]
  {
    var parts := PyStr.Split(url, '/');
    var seg := "tr:" + directive;
    var pieces := parts[..4] + [seg] + parts[4..];
    InsertDirectiveJoin(url, directive);
    SegmentsHaveNoSeparator(parts, seg);
    PyStr.SplitJoin(pieces, '/');
  }

  /** The rewritten URL is the join of the URL's pieces with `tr:<directive>` inserted at index 4. */
  lemma InsertDirectiveJoin(url: string, directive: string)
    requires directive != "" && PyStr.Count(url, '/') >= 4
    ensures var parts := PyStr.Split(url, '/');
      InsertDirective(url, Some(directive)) == PyStr.Join(parts[..4] + ["tr:" + directive] + parts[4..], '/')
  {
    var parts := PyStr.Split(url, '/');
    var seg := "tr:" + directive;
    var a, b := parts[..4], [seg] + parts[4..];
    var head, tail := PyStr.Join(a, '/'), PyStr.Join(parts[4..], '/');
    InsertDirectiveShape(url, directive);
    PyStr.JoinConcat([seg], parts[4..], '/');
    assert PyStr.Join([seg], '/') == seg;
    PyStr.JoinConcat(a, b, '/');
    Regroup(head, directive, tail);
    assert a + b == parts[..4] + [seg] + parts[4..];
  }

  lemma InsertDirectiveShape(url: string, directive: string)
    requires directive != "" && PyStr.Count(url, '/') >= 4
    ensures var parts := PyStr.Split(url, '/');
      InsertDirective(url, Some(directive))
        == PyStr.Join(parts[..4], '/') + "/tr:" + directive + "/" + PyStr.Join(parts[4..], '/')
  {
  }

  lemma Regroup(head: string, directive: string, tail: string)
    ensures head + "/tr:" + directive + "/" + tail == head + "/" + ("tr:" + directive + "/" + tail)
  {
  }

  lemma SegmentsHaveNoSeparator(parts: seq<string>, seg: string)
    requires |parts| >= 4 && forall i :: 0 <= i < |parts| ==> '/' !in parts[i]
    requires '/' !in seg
    ensures var pieces := parts[..4] + [seg] + parts[4..];
      forall i :: 0 <= i < |pieces| ==> '/' !in pieces[i]
  {
    var pieces := parts[..4] + [seg] + parts[4..];
    forall i | 0 <= i < |pieces| ensures '/' !in pieces[i] {
      if i < 4 { assert pieces[i] == parts[i]; }
      else if i > 4 { assert pieces[i] == parts[i - 1]; }
      else { assert pieces[i] == seg; }
    }
  }

  // ---------------------------------------------------------------------------
  // Call sites
  // ---------------------------------------------------------------------------

  /** The image card's one call: resize directive and caption together (frontend.py:260). */
  function ImagePostUrl(url: string, caption: Option<string>): (r: string)
    ensures !IsTruthy(caption) ==> r == InsertDirective(url, Some(ImageDirective))
  {
    CreateTransformedUrl(url, Some(ImageDirective), caption)
  }

  /** The video card's call: resize directive only (frontend.py:265). */
  function VideoPostUrl(url: string): (r: string)
    ensures r == InsertDirective(url, Some(VideoDirective))
  {
    CreateTransformedUrl(url, Some(VideoDirective), None)
  }

  /**
   * With a caption the image card loses its resize: the result is the overlay
   * alone, and (on a URL that is rewritten at all) it differs from the
   * resized URL at the first character of the directive.
   */
  lemma ImageCaptionDropsResize(url: string, caption: Option<string>)
    requires IsTruthy(caption)
    ensures ImagePostUrl(url, caption) == CreateTransformedUrl(url, None, caption)
    ensures PyStr.Count(url, '/') >= 4 ==> ImagePostUrl(url, caption) != ImagePostUrl(url, None)
  {
    if PyStr.Count(url, '/') >= 4 {
      var k := PyStr.IndexAfterNth(url, '/', 4);
      var d := EffectiveDirective(Some(ImageDirective), caption).value;
      CreateTransformedUrlSplices(url, Some(ImageDirective), caption);
      CreateTransformedUrlSplices(url, Some(ImageDirective), None);
      var withCaption := ImagePostUrl(url, caption);
      var resized := ImagePostUrl(url, None);
      assert withCaption[k + 3] == d[0] == 'l';
      assert resized[k + 3] == ImageDirective[0] == 'w';
    }
  }
}
